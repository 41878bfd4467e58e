/** A whole message as one side receives it: the head is read up to its end and parsed, and the field
    that frames the body chooses its reader. `wire` is all the bytes that arrive, `offers` what the
    network makes of each choice it has, the first being how much is read along with the head. */
module Receive {
  import opened Wrappers
  import opened Text
  import opened QueryString
  import opened BodySpec
  import Body
  import Headers
  import HeaderEnd
  import Heads
  import Messages
  import SyncRequest

  // ---------- the server ----------

  datatype ServerReceived =
    | NoHead(error: ServerOutcome)
    | Head(head: Messages.RequestHead, fields: seq<Field>, body: ServerOutcome)

  /** Which body reader, by the parsed fields; `left` and `additional` as in `ServerContent`. */
  function ServerBody(find: Messages.Lookup, fields: seq<Field>, left: string, additional: nat, stream: string,
                      max: nat, offers: seq<nat>): ServerOutcome
    requires |left| <= max
  {
    var length := find(fields, "Content-Length");
    if length.Some? then
      match Stoul(length.value, 10)
      case None => Malformed
      case Some(n) => ServerContent(left, additional, stream, n, max)
    else if find(fields, "Transfer-Encoding") == Some("chunked") then
      ServerDecode(left, stream, Max(18, |left|), "", max, offers)
    else Complete(left, stream)
  }

  /** The server's `read`; `find` looks up fields in its container. */
  function ServerReceive(find: Messages.Lookup, wire: string, max: nat, offers: seq<nat>): ServerReceived {
    match Heads.BlankEnd(wire[..Min(max, |wire|)])
    case None => NoHead(if |wire| < max then Lost else NotFound)
    case Some(e) =>
      var ahead := Ahead(0, e, Min(max, |wire|), offers);
      match Messages.ParsedRequest(wire[..e + ahead])
      case None => NoHead(Malformed)
      case Some(Request(head, fields, left)) =>
        RequestShrinks(wire[..e + ahead]);
        Head(head, fields, ServerBody(find, fields, left, ahead, wire[e + ahead..], max, Later(offers)))
  }

  /** What the socket has not returned when the body is complete: the next request on the connection is
      read from it, into a new buffer. */
  function BodyUnread(find: Messages.Lookup, fields: seq<Field>, left: string, additional: nat, stream: string,
                      max: nat, offers: seq<nat>): string
    requires |left| <= max
  {
    if find(fields, "Content-Length") == None && find(fields, "Transfer-Encoding") == Some("chunked") then
      ServerUnread(left, stream, Max(18, |left|), 0, max, offers)
    else
      match ServerBody(find, fields, left, additional, stream, max, offers)
      case Complete(_, rest) => rest
      case _ => ""
  }

  function Unread(find: Messages.Lookup, wire: string, max: nat, offers: seq<nat>): string {
    match Heads.BlankEnd(wire[..Min(max, |wire|)])
    case None => ""
    case Some(e) =>
      var ahead := Ahead(0, e, Min(max, |wire|), offers);
      match Messages.ParsedRequest(wire[..e + ahead])
      case None => ""
      case Some(Request(_, fields, left)) =>
        RequestShrinks(wire[..e + ahead]);
        BodyUnread(find, fields, left, ahead, wire[e + ahead..], max, Later(offers))
  }

  lemma {:induction false} HeaderShrinks(s: string)
    ensures |Headers.Header(s).1| <= |s|
    decreases |s|
  {
    hide Headers.LineField;
    match GetLine(s)
    case None =>
    case Some(Line(text, rest)) =>
      if Headers.LineField(text).Some? {
        HeaderShrinks(rest);
      }
  }

  lemma RequestShrinks(s: string)
    requires Messages.ParsedRequest(s).Some?
    ensures |Messages.ParsedRequest(s).value.rest| <= |s|
  {
    hide Headers.Header, Messages.RequestLine;
    HeaderShrinks(GetLine(s).value.rest);
  }

  /** What the server receives by the head alone, which ends at `e`: method, target and fields do not
      depend on what is read along, nor does what parsing leaves of the head, which is nothing if and only
      if every header line has a colon. */
  lemma ServerReceives(find: Messages.Lookup, wire: string, max: nat, offers: seq<nat>, e: nat, ahead: nat)
    requires Heads.BlankEnd(wire[..Min(max, |wire|)]) == Some(e) && ahead == Ahead(0, e, Min(max, |wire|), offers)
    ensures match Messages.ParsedRequest(wire[..e])
            case None => ServerReceive(find, wire, max, offers) == NoHead(Malformed)
            case Some(Request(head, fields, skipped)) =>
              var left := skipped + wire[e..e + ahead];
              && |left| <= max && (skipped == "" <==> Headers.AllHaveColons(Heads.HeaderLines(wire, e, 2)))
              && ServerReceive(find, wire, max, offers)
                 == Head(head, fields, ServerBody(find, fields, left, ahead, wire[e + ahead..], max, Later(offers)))
              && Unread(find, wire, max, offers) == BodyUnread(find, fields, left, ahead, wire[e + ahead..], max, Later(offers))
  {
    hide Heads.BlankEnd, Messages.ParsedRequest, ServerBody, BodyUnread, Headers.AllHaveColons, Heads.HeaderLines;
    var buffer := wire[..e + ahead];
    Heads.BlankEndPrefix(buffer, wire[..Min(max, |wire|)]);
    Heads.RequestLeaves(buffer, e);
    SameHead(wire, buffer, e, 2);
    if Messages.ParsedRequest(buffer).Some? {
      RequestShrinks(buffer);
    }
  }

  lemma SameHead(wire: string, buffer: string, e: nat, blank: nat)
    requires blank < e <= |buffer| && buffer <= wire
    ensures buffer[..e] == wire[..e] && buffer[e..] == wire[e..|buffer|]
    ensures Heads.HeaderLines(wire, e, blank) == Heads.HeaderLines(buffer, e, blank)
  {
    assert wire[..e - blank] == buffer[..e - blank];
  }

  /** For every request with Content-Length that arrives whole and fits the buffer: the resource gets
      exactly the bytes behind the head that the length announces, with what follows them unread, if and
      only if no more had been read along with the head and every header line has a colon. */
  lemma ServerContentIsExact(find: Messages.Lookup, wire: string, max: nat, offers: seq<nat>, e: nat, ahead: nat,
                             r: Messages.Request, n: nat)
    requires Heads.BlankEnd(wire[..Min(max, |wire|)]) == Some(e) && ahead == Ahead(0, e, Min(max, |wire|), offers)
    requires Messages.ParsedRequest(wire[..e]) == Some(r)
    requires find(r.fields, "Content-Length").Some? && Stoul(find(r.fields, "Content-Length").value, 10) == Some(n)
    requires n <= max && e + n <= |wire|
    ensures ServerReceive(find, wire, max, offers) == Head(r.head, r.fields, Complete(wire[e..e + n], wire[e + n..]))
       <==> ahead <= n && Headers.AllHaveColons(Heads.HeaderLines(wire, e, 2))
  {
    hide Heads.BlankEnd, Messages.ParsedRequest, Stoul, Headers.AllHaveColons, Heads.HeaderLines, ServerReceive, Unread, BodyUnread, ServerContent;
    ServerReceives(find, wire, max, offers, e, ahead);
    ServerContentDelivered(r.rest + wire[e..e + ahead], ahead, wire[e + ahead..], n, max);
    BehindIsWire(wire, e, ahead, r.rest, n);
  }

  /** A body with Content-Length that does not arrive whole is given up, one above the limit refused, and a
      length that is no number is malformed. */
  lemma ServerContentFails(find: Messages.Lookup, wire: string, max: nat, offers: seq<nat>, e: nat, ahead: nat, r: Messages.Request)
    requires Heads.BlankEnd(wire[..Min(max, |wire|)]) == Some(e) && ahead == Ahead(0, e, Min(max, |wire|), offers)
    requires Messages.ParsedRequest(wire[..e]) == Some(r) && find(r.fields, "Content-Length").Some?
    ensures var got, n := ServerReceive(find, wire, max, offers), Stoul(find(r.fields, "Content-Length").value, 10);
            && got.Head? && got.head == r.head && got.fields == r.fields
            && (n == None ==> got.body == Malformed)
            && (n.Some? && n.value > max ==> got.body == TooLarge)
            && (n.Some? && n.value <= max && e + n.value > |wire| && r.rest == "" ==> got.body == Lost)
  {
    hide Heads.BlankEnd, Messages.ParsedRequest, Stoul, Headers.AllHaveColons, Heads.HeaderLines, ServerReceive, Unread, BodyUnread;
    ServerReceives(find, wire, max, offers, e, ahead);
    var n := Stoul(find(r.fields, "Content-Length").value, 10);
    if n.Some? && e + n.value > |wire| && r.rest == "" {
      ServerContentCutOff(r.rest + wire[e..e + ahead], ahead, wire[e + ahead..], n.value, max);
    }
  }

  /** The fields announce chunks. */
  ghost predicate InChunks(find: Messages.Lookup, fields: seq<Field>) {
    find(fields, "Content-Length") == None && find(fields, "Transfer-Encoding") == Some("chunked")
  }

  /** The head of a request in chunks: the server finds its end at `e` and parses it as `r`. */
  ghost predicate RequestAt(find: Messages.Lookup, wire: string, max: nat, e: nat, r: Messages.Request) {
    && Heads.BlankEnd(wire[..Min(max, |wire|)]) == Some(e)
    && Messages.ParsedRequest(wire[..e]) == Some(r) && InChunks(find, r.fields)
  }

  lemma ServerReceivesChunks(find: Messages.Lookup, wire: string, max: nat, offers: seq<nat>, e: nat, ahead: nat, r: Messages.Request)
    requires RequestAt(find, wire, max, e, r) && ahead == Ahead(0, e, Min(max, |wire|), offers)
    ensures var left := r.rest + wire[e..e + ahead];
            && left + wire[e + ahead..] == r.rest + wire[e..]
            && ServerReceive(find, wire, max, offers)
               == Head(r.head, r.fields, ServerDecode(left, wire[e + ahead..], Max(18, |r.rest| + ahead), "", max, Later(offers)))
            && Unread(find, wire, max, offers) == ServerUnread(left, wire[e + ahead..], Max(18, |r.rest| + ahead), 0, max, Later(offers))
  {
    hide Heads.BlankEnd, Messages.ParsedRequest, ServerReceive, ServerBody, BodyUnread, Unread, InChunks, ServerDecode, ServerUnread, Headers.AllHaveColons, Heads.HeaderLines;
    ServerReceives(find, wire, max, offers, e, ahead);
    Rejoined(r.rest, wire, e, ahead);
    BodyInChunks(find, r.fields, r.rest + wire[e..e + ahead], ahead, wire[e + ahead..], max, Later(offers));
  }

  lemma BodyInChunks(find: Messages.Lookup, fields: seq<Field>, left: string, additional: nat, stream: string, max: nat, offers: seq<nat>)
    requires |left| <= max && InChunks(find, fields)
    ensures ServerBody(find, fields, left, additional, stream, max, offers) == ServerDecode(left, stream, Max(18, |left|), "", max, offers)
    ensures BodyUnread(find, fields, left, additional, stream, max, offers) == ServerUnread(left, stream, Max(18, |left|), 0, max, offers)
  {
    hide ServerDecode, ServerUnread;
  }

  lemma Rejoined(skipped: string, wire: string, e: nat, ahead: nat)
    requires e + ahead <= |wire|
    ensures skipped + wire[e..e + ahead] + wire[e + ahead..] == skipped + wire[e..]
  {
  }

  /** How large the buffer for size lines can become, `skipped` bytes being left of the head. */
  function LargestLine(wire: string, max: nat, e: nat, skipped: string): nat
    requires e <= Min(max, |wire|)
  {
    Max(18, |skipped| + Min(max, |wire|) - e)
  }

  /** A request in chunks is received in the same way for every splitting into reads if what follows the
      head is steady for all sizes of the buffer for size lines that the first read can bring about. */
  lemma ServerMessageIsSteady(find: Messages.Lookup, wire: string, max: nat, offers: seq<nat>, offers': seq<nat>, e: nat, r: Messages.Request)
    requires RequestAt(find, wire, max, e, r)
    requires ServerSteady(r.rest + wire[e..], Max(18, |r.rest|), LargestLine(wire, max, e, r.rest), 0, max)
    ensures ServerReceive(find, wire, max, offers) == ServerReceive(find, wire, max, offers')
  {
    hide Heads.BlankEnd, Messages.ParsedRequest, ServerReceive, Unread, ServerDecode, ServerUnread, ServerSteady, InChunks;
    var a, a' := Ahead(0, e, Min(max, |wire|), offers), Ahead(0, e, Min(max, |wire|), offers');
    ServerReceivesChunks(find, wire, max, offers, e, a, r);
    ServerReceivesChunks(find, wire, max, offers', e, a', r);
    ServerReadsDoNotMatter(r.rest + wire[e..e + a], wire[e + a..], Later(offers), Max(18, |r.rest| + a),
                           r.rest + wire[e..e + a'], wire[e + a'..], Later(offers'), Max(18, |r.rest| + a'),
                           Max(18, |r.rest|), LargestLine(wire, max, e, r.rest), "", max);
  }

  /** The chunks that follow the head, or what is left of it, and the limits they keep. */
  ghost predicate ChunksFollow(wire: string, e: nat, skipped: string, cs: seq<Chunk>, zero: string, ext: string, rest: string, high: nat)
    requires e <= |wire|
  {
    skipped + wire[e..] == Wire(cs, zero, ext, rest) && WireOk(cs, zero, ext, high) && |Payload(cs)| < ULONG_LIMIT
  }

  /** A well-formed request in chunks is handed over whole, with what is behind the zero-size line left
      over, or refused if it exceeds the limit, if each size line fits a buffer of 18 bytes or, if that is
      more, of those left over when the head was parsed. Otherwise, unless refused before, a line is not
      found. */
  lemma ServerMessageIsWhole(find: Messages.Lookup, wire: string, max: nat, offers: seq<nat>, e: nat, ahead: nat, r: Messages.Request,
                             cs: seq<Chunk>, zero: string, ext: string, rest: string, high: nat)
    requires RequestAt(find, wire, max, e, r) && ahead == Ahead(0, e, Min(max, |wire|), offers)
    requires ChunksFollow(wire, e, r.rest, cs, zero, ext, rest, high)
    ensures var got := ServerReceive(find, wire, max, offers);
            var whole := WireOk(cs, zero, ext, Max(18, |r.rest| + ahead));
            && got.Head? && got.head == r.head && got.fields == r.fields
            && (whole ==> got.body == if |Payload(cs)| <= max then Complete(Payload(cs), rest) else TooLarge)
            && (!whole && |Payload(cs)| <= max ==> got.body == NotFound)
  {
    hide Heads.BlankEnd, Messages.ParsedRequest, ServerReceive, Unread, ServerDecode, ServerUnread, InChunks, Wire, WireOk, Payload;
    ServerReceivesChunks(find, wire, max, offers, e, ahead, r);
    var line, stream, cap := r.rest + wire[e..e + ahead], wire[e + ahead..], Max(18, |r.rest| + ahead);
    if WireOk(cs, zero, ext, cap) {
      ServerRoundTrip(cs, zero, ext, rest, cap, line, stream, Later(offers), "", max);
    } else if |Payload(cs)| <= max {
      ServerRoundTripIff(cs, zero, ext, rest, high, cap, line, stream, Later(offers), "", max);
    }
    assert "" + Payload(cs) == Payload(cs);
  }

  /** A request in chunks that is cut off before the end of its last line is given up, whatever the reads. */
  lemma ServerMessageIsCutOff(find: Messages.Lookup, wire: string, max: nat, offers: seq<nat>, e: nat, r: Messages.Request,
                              cs: seq<Chunk>, zero: string, ext: string, n: nat)
    requires RequestAt(find, wire, max, e, r) && WireOk(cs, zero, ext, Max(18, |r.rest|))
    requires |Payload(cs)| <= max && |Payload(cs)| < ULONG_LIMIT
    requires n < |Wire(cs, zero, ext, "")| && r.rest + wire[e..] == Wire(cs, zero, ext, "")[..n]
    ensures ServerReceive(find, wire, max, offers) == Head(r.head, r.fields, Lost)
  {
    hide Heads.BlankEnd, Messages.ParsedRequest, ServerReceive, Unread, ServerDecode, ServerUnread, InChunks, Wire, WireOk, Payload;
    var ahead := Ahead(0, e, Min(max, |wire|), offers);
    ServerReceivesChunks(find, wire, max, offers, e, ahead, r);
    RoomierLineBuffer(cs, zero, ext, Max(18, |r.rest|), Max(18, |r.rest| + ahead));
    ServerCutOff(cs, zero, ext, n, Max(18, |r.rest| + ahead), r.rest + wire[e..e + ahead], wire[e + ahead..], Later(offers), "", max);
  }

  /** One with a line that has no number where a size belongs is malformed, whatever the reads. */
  lemma ServerMessageIsMalformed(find: Messages.Lookup, wire: string, max: nat, offers: seq<nat>, e: nat, r: Messages.Request,
                                 cs: seq<Chunk>, bad: string, rest: string)
    requires RequestAt(find, wire, max, e, r) && BadWire(cs, bad, Max(18, |r.rest|))
    requires |Payload(cs)| <= max && |Payload(cs)| < ULONG_LIMIT && r.rest + wire[e..] == Wire(cs, bad, "", rest)
    ensures ServerReceive(find, wire, max, offers) == Head(r.head, r.fields, Malformed)
  {
    hide Heads.BlankEnd, Messages.ParsedRequest, ServerReceive, Unread, ServerDecode, ServerUnread, InChunks, Wire, BadWire, Payload;
    var ahead := Ahead(0, e, Min(max, |wire|), offers);
    ServerReceivesChunks(find, wire, max, offers, e, ahead, r);
    RoomierForBad(cs, bad, Max(18, |r.rest|), Max(18, |r.rest| + ahead));
    ServerMalformed(cs, bad, rest, Max(18, |r.rest| + ahead), r.rest + wire[e..e + ahead], wire[e + ahead..], Later(offers), "", max);
  }

  lemma RoomierForBad(cs: seq<Chunk>, bad: string, cap: nat, cap': nat)
    requires cap <= cap' && BadWire(cs, bad, cap)
    ensures BadWire(cs, bad, cap')
  {
    hide IsNumeral, Stoul;
    forall i | 0 <= i < |cs| ensures ChunkOk(cs[i], cap') {
      assert ChunkOk(cs[i], cap);
    }
  }

  /** Such a request is received in the same way for every splitting if and only if no size line is
      longer than the smallest of these buffers, or one is longer than the largest. */
  lemma ServerMessageIsAlikeIff(find: Messages.Lookup, wire: string, max: nat, e: nat, r: Messages.Request,
                                cs: seq<Chunk>, zero: string, ext: string, rest: string, high: nat)
    requires RequestAt(find, wire, max, e, r)
    requires ChunksFollow(wire, e, r.rest, cs, zero, ext, rest, high) && |Payload(cs)| <= max
    ensures (forall offers: seq<nat>, offers': seq<nat> ::
               ServerReceive(find, wire, max, offers) == ServerReceive(find, wire, max, offers'))
       <==> WireOk(cs, zero, ext, Max(18, |r.rest|)) || !WireOk(cs, zero, ext, LargestLine(wire, max, e, r.rest))
  {
    hide Heads.BlankEnd, Messages.ParsedRequest, ServerReceive, InChunks, WireOk, Payload, ChunksFollow;
    var most := Min(max, |wire|) - e;
    forall offers: seq<nat>
      ensures var cap := Max(18, |r.rest| + Ahead(0, e, Min(max, |wire|), offers));
              && Max(18, |r.rest|) <= cap <= LargestLine(wire, max, e, r.rest)
              && ServerReceive(find, wire, max, offers)
                 == Head(r.head, r.fields, if WireOk(cs, zero, ext, cap) then Complete(Payload(cs), rest) else NotFound)
              && (WireOk(cs, zero, ext, Max(18, |r.rest|)) ==> WireOk(cs, zero, ext, cap))
              && (WireOk(cs, zero, ext, cap) ==> WireOk(cs, zero, ext, LargestLine(wire, max, e, r.rest)))
    {
      var ahead := Ahead(0, e, Min(max, |wire|), offers);
      ServerMessageIsWhole(find, wire, max, offers, e, ahead, r, cs, zero, ext, rest, high);
      RoomierLineBuffer(cs, zero, ext, Max(18, |r.rest|), Max(18, |r.rest| + ahead));
      RoomierLineBuffer(cs, zero, ext, Max(18, |r.rest| + ahead), LargestLine(wire, max, e, r.rest));
    }
    assert Ahead(0, e, Min(max, |wire|), [0]) == 0 && Ahead(0, e, Min(max, |wire|), [most]) == most;
    assert ServerReceive(find, wire, max, [0]) == ServerReceive(find, wire, max, [most]) <==>
           (WireOk(cs, zero, ext, Max(18, |r.rest|)) <==> WireOk(cs, zero, ext, LargestLine(wire, max, e, r.rest)));
  }

  lemma RoomierLineBuffer(cs: seq<Chunk>, zero: string, ext: string, cap: nat, cap': nat)
    requires cap <= cap'
    ensures WireOk(cs, zero, ext, cap) ==> WireOk(cs, zero, ext, cap')
  {
    hide IsNumeral;
    if WireOk(cs, zero, ext, cap) {
      forall i | 0 <= i < |cs| ensures ChunkOk(cs[i], cap') {
        assert ChunkOk(cs[i], cap);
      }
    }
  }

  /** A chunk with a long extension. */
  ghost predicate LongExtension(wire: string, ext: string, rest: string) {
    && 16 <= |ext| && ext[0] == ';' && '\n' !in ext
    && wire == Wire([Chunk("5", ext, "hello")], "0", "", rest)
  }

  lemma LongExtensionFits(cs: seq<Chunk>, ext: string, cap: nat)
    requires cs == [Chunk("5", ext, "hello")] && 16 <= |ext| && ext[0] == ';' && '\n' !in ext
    ensures WireOk(cs, "0", "", cap) <==> |ext| + 3 <= cap
    ensures Payload(cs) == "hello"
  {
    OneDigit('5', 5);
    OneDigit('0', 0);
    hide IsNumeral;
    assert ChunkOk(cs[0], cap) <==> |ext| + 3 <= cap;
    assert cs[1..] == [] && "hello" + "" == "hello";
    assert Payload(cs[1..]) == "";
  }

  lemma LongExtensionSize(cs: seq<Chunk>, ext: string, rest: string)
    requires cs == [Chunk("5", ext, "hello")]
    ensures |Wire(cs, "0", "", rest)| >= |ext| + 8
  {
    WireFront(cs, "0", "", rest);
    hide Wire;
  }

  /** A valid encoding, by section 4.1 of RFC 7230, and two read-aheads with different outcomes: on either
      side its first line is too long if nothing of it was read along with the head, while it is read
      whole if all of it was. */
  lemma LongExtensionDependsOnReads(find: Messages.Lookup, fields: seq<Field>, wire: string, ext: string, rest: string, max: nat, closing: Closing)
    requires LongExtension(wire, ext, rest) && InChunks(find, fields) && |wire| <= max
    ensures ServerBody(find, fields, "", 0, wire, max, []) == NotFound
    ensures ServerBody(find, fields, wire, |wire|, "", max, []) == Complete("hello", rest)
    ensures var r := ClientBody(find, "1.1", fields, "", 0, wire, max, closing, []);
            r.Called? && !r.aborted && Delivered(r.calls, max, TransportError)
    ensures var r := ClientBody(find, "1.1", fields, wire, |wire|, "", max, closing, []);
            r.Called? && !r.aborted && WellDelivered(r.calls, max) && Content(r.calls) == "hello"
  {
    hide ServerBody, ClientBody, Wire, ServerDecode, ClientDecode, Delivered, Content, InChunks;
    LongExtensionDecodes(wire, ext, rest, max);
    BodyInChunks(find, fields, "", 0, wire, max, []);
    BodyInChunks(find, fields, wire, |wire|, "", max, []);
    CallsInChunks(find, "1.1", fields, "", 0, wire, max, closing, []);
    CallsInChunks(find, "1.1", fields, wire, |wire|, "", max, closing, []);
  }

  lemma LongExtensionDecodes(wire: string, ext: string, rest: string, max: nat)
    requires LongExtension(wire, ext, rest) && |wire| <= max
    ensures ServerDecode("", wire, 18, "", max, []) == NotFound && 18 <= |wire|
    ensures ServerDecode(wire, "", |wire|, "", max, []) == Complete("hello", rest)
    ensures var outcome := ClientDecode("", wire, 18, "", max, []); outcome.end == Stopped && Delivered(outcome.calls, max, TransportError)
    ensures var outcome := ClientDecode(wire, "", |wire|, "", max, []);
            outcome.end == Finished(rest) && WellDelivered(outcome.calls, max) && Content(outcome.calls) == "hello"
  {
    var cs := [Chunk("5", ext, "hello")];
    LongExtensionSize(cs, ext, rest);
    assert "" + wire == wire && wire + "" == wire;
    OneChunkDecodes(cs, ext, rest, 18, "", wire, max);
    OneChunkDecodes(cs, ext, rest, |wire|, wire, "", max);
  }

  lemma OneChunkDecodes(cs: seq<Chunk>, ext: string, rest: string, cap: nat, line: string, stream: string, max: nat)
    requires cs == [Chunk("5", ext, "hello")] && 16 <= |ext| <= max && ext[0] == ';' && '\n' !in ext
    requires line + stream == Wire(cs, "0", "", rest) && |line| <= cap
    ensures ServerDecode(line, stream, cap, "", max, []) == if |ext| + 3 <= cap then Complete(cs[0].data, rest) else NotFound
    ensures var outcome := ClientDecode(line, stream, cap, "", max, []);
            if |ext| + 3 <= cap then outcome.end == Finished(rest) && WellDelivered(outcome.calls, max) && Content(outcome.calls) == cs[0].data
            else outcome.end == Stopped && Delivered(outcome.calls, max, TransportError)
  {
    LongExtensionFits(cs, ext, |ext| + 3);
    LongExtensionFits(cs, ext, cap);
    hide Wire, WireOk, ServerDecode, ClientDecode, Delivered, Content, Payload;
    ServerRoundTripIff(cs, "0", "", rest, |ext| + 3, cap, line, stream, [], "", max);
    ClientRoundTripIff(cs, "0", "", rest, |ext| + 3, cap, line, stream, [], "", max);
    assert "" + cs[0].data == cs[0].data;
  }

  /** The bytes behind the head, put together from buffer and socket. */
  lemma BehindIsWire(wire: string, e: nat, ahead: nat, skipped: string, n: nat)
    requires e + ahead <= |wire| && e + n <= |wire|
    ensures var left := skipped + wire[..e + ahead][e..];
            var message := Behind(left, ahead, wire[e + ahead..]);
            && ahead <= |left| && (|left| == ahead <==> skipped == "")
            && message[..n] == wire[e..e + n] && message[n..] == wire[e + n..]
  {
    var left := skipped + wire[..e + ahead][e..];
    assert left[|left| - ahead..] == wire[e..e + ahead];
    assert wire[e..e + ahead] + wire[e + ahead..] == wire[e..];
  }

  // ---------- the next request on the connection ----------

  lemma {:induction false} UnreadOfChunks(find: Messages.Lookup, wire: string, max: nat, offers: seq<nat>, e: nat, ahead: nat, r: Messages.Request,
                                          cs: seq<Chunk>, zero: string, ext: string, rest: string)
    requires RequestAt(find, wire, max, e, r) && ahead == Ahead(0, e, Min(max, |wire|), offers)
    requires ChunksFollow(wire, e, r.rest, cs, zero, ext, rest, Max(18, |r.rest| + ahead)) && |Payload(cs)| <= max
    ensures var unread := Unread(find, wire, max, offers);
            |unread| <= |rest| && unread == rest[|rest| - |unread|..]
  {
    hide Heads.BlankEnd, Messages.ParsedRequest, ServerReceive, Unread, ServerDecode, ServerUnread, InChunks, Wire, WireOk, Payload;
    ServerReceivesChunks(find, wire, max, offers, e, ahead, r);
    var line, stream, cap := r.rest + wire[e..e + ahead], wire[e + ahead..], Max(18, |r.rest| + ahead);
    ServerRoundTrip(cs, zero, ext, rest, cap, line, stream, Later(offers), "", max);
    UnreadIsBehind(line, stream, cap, "", max, Later(offers));
  }

  /** A stream that begins with an empty line has no request. */
  lemma EmptyLineFirst(find: Messages.Lookup, s: string, max: nat, offers: seq<nat>)
    requires s != "" && (s[0] == '\n' || (|s| >= 2 && s[0] == '\r' && s[1] == '\n'))
    ensures ServerReceive(find, s, max, offers).NoHead?
  {
    hide Heads.BlankEnd, Messages.ParsedRequest, ServerBody;
    var e := Heads.BlankEnd(s[..Min(max, |s|)]);
    if e.Some? {
      var ahead := Ahead(0, e.value, Min(max, |s|), offers);
      EmptyLineParses(s[..e.value + ahead]);
    }
  }

  lemma EmptyLineParses(s: string)
    requires |s| >= 2 && (s[0] == '\n' || (s[0] == '\r' && s[1] == '\n'))
    ensures Messages.ParsedRequest(s) == None
  {
    hide Headers.Header;
    if s[0] == '\n' {
      GetLineOf("", s[1..]);
      assert s == "" + "\n" + s[1..];
      FindNone("", ' ');
    } else {
      GetLineOf("\r", s[2..]);
      assert s == "\r" + "\n" + s[2..];
      FindNone("\r", ' ');
    }
  }

  /** The line that ends a chunked body is followed by a CRLF, which the reader leaves on the connection
      unless it has been read along. The next request, `next`, is therefore read whole if and only if just
      the CRLF has been read along with that line: with less of it the next head begins with an empty line
      and is malformed, with more it has lost its beginning. */
  lemma NextRequest(find: Messages.Lookup, wire: string, max: nat, offers: seq<nat>, e: nat, ahead: nat, r: Messages.Request,
                    cs: seq<Chunk>, zero: string, ext: string, next: string)
    requires RequestAt(find, wire, max, e, r) && ahead == Ahead(0, e, Min(max, |wire|), offers)
    requires ChunksFollow(wire, e, r.rest, cs, zero, ext, CRLF + next, Max(18, |r.rest| + ahead)) && |Payload(cs)| <= max
    ensures var unread := Unread(find, wire, max, offers);
            && |unread| <= |next| + 2
            && (unread == next <==> |unread| == |next|)
            && (|unread| > |next| ==> forall offers' :: ServerReceive(find, unread, max, offers').NoHead?)
            && (|unread| < |next| ==> unread == next[|next| - |unread|..])
  {
    hide Heads.BlankEnd, Messages.ParsedRequest, ServerReceive, Unread, InChunks, Wire, WireOk, Payload, ChunksFollow, RequestAt;
    UnreadOfChunks(find, wire, max, offers, e, ahead, r, cs, zero, ext, CRLF + next);
    var unread := Unread(find, wire, max, offers);
    CutCrlf(next, unread);
    if |unread| > |next| {
      forall offers': seq<nat> ensures ServerReceive(find, unread, max, offers').NoHead? {
        EmptyLineFirst(find, unread, max, offers');
      }
    }
  }

  lemma CutCrlf(next: string, unread: string)
    requires |unread| <= |CRLF + next| && unread == (CRLF + next)[|CRLF + next| - |unread|..]
    ensures |unread| == |next| ==> unread == next
    ensures |unread| == |next| + 1 ==> unread[0] == '\n'
    ensures |unread| == |next| + 2 ==> unread[0] == '\r' && unread[1] == '\n'
    ensures |unread| < |next| ==> unread == next[|next| - |unread|..]
  {
  }

  /** Each of these happens, for every such message: where nothing has been read ahead before, the last
      read decides how many bytes `k` are lost. */
  lemma AnyLoss(find: Messages.Lookup, wire: string, max: nat, e: nat, r: Messages.Request,
                cs: seq<Chunk>, zero: string, ext: string, rest: string, offers: seq<nat>, k: nat)
    requires RequestAt(find, wire, max, e, r) && r.rest == ""
    requires ChunksFollow(wire, e, r.rest, cs, zero, ext, rest, 18) && |Payload(cs)| <= max
    requires |offers| == |cs| + 2 && (forall i :: 0 <= i <= |cs| ==> offers[i] == 0) && offers[|cs| + 1] == k
    requires k <= |rest| && |zero + ext| + 2 + k <= 18
    ensures Unread(find, wire, max, offers) == rest[k..]
  {
    hide Heads.BlankEnd, Messages.ParsedRequest, ServerReceive, Unread, ServerDecode, ServerUnread, InChunks, Wire, WireOk, Payload;
    ServerReceivesChunks(find, wire, max, offers, e, 0, r);
    assert r.rest + wire[e..e + 0] == "" && "" + wire[e + 0..] == wire[e + 0..] == "" + wire[e..];
    DiscardsAny(cs, zero, ext, rest, 18, "", "", max, Later(offers), k);
  }

  // ---------- one message, two splittings ----------

  /** With the streams of `BodySpec.BareLfDependsOnReads` and `BodySpec.WrappedSizeDependsOnReads` behind
      any head that announces chunks. */
  lemma ServerDependsOnReads(find: Messages.Lookup, wire: string, max: nat, e: nat, r: Messages.Request)
    requires RequestAt(find, wire, max, e, r) && r.rest == "" && max < ULONG_LIMIT
    ensures wire[e..] == "1\n0\r\nQ\r\n" ==>
              && ServerReceive(find, wire, max, [0, 0]) == Head(r.head, r.fields, Complete("Q", ""))
              && ServerReceive(find, wire, max, [0, 3]) == Head(r.head, r.fields, Malformed)
    ensures forall size, data, tail :: Wrapping(wire[e..], size, data, tail, 18, max) ==>
              && ServerReceive(find, wire, max, [0, 0, 3]) == Head(r.head, r.fields, Thrown)
              && ServerReceive(find, wire, max, [0, 0, 0]) == Head(r.head, r.fields, Lost)
  {
    hide Heads.BlankEnd, Messages.ParsedRequest, ServerReceive, Unread, ServerDecode, ServerUnread, InChunks, Wrapping;
    forall later: seq<nat>
      ensures ServerReceive(find, wire, max, [0] + later) == Head(r.head, r.fields, ServerDecode("", wire[e..], 18, "", max, later))
    {
      ServerReceivesChunks(find, wire, max, [0] + later, e, 0, r);
      assert r.rest + wire[e..e + 0] == "" && Later([0] + later) == later && wire[e + 0..] == wire[e..];
    }
    assert [0] + [0] == [0, 0] && [0] + [3] == [0, 3] && [0] + [0, 3] == [0, 0, 3] && [0] + [0, 0] == [0, 0, 0];
    if wire[e..] == "1\n0\r\nQ\r\n" {
      BareLfDependsOnReads(wire[e..], max);
    }
    forall size, data, tail | Wrapping(wire[e..], size, data, tail, 18, max)
      ensures ServerReceive(find, wire, max, [0, 0, 3]) == Head(r.head, r.fields, Thrown)
      ensures ServerReceive(find, wire, max, [0, 0, 0]) == Head(r.head, r.fields, Lost)
    {
      WrappedSizeDependsOnReads(wire[e..], size, data, tail, 18, max, [0, 3], [0, 0]);
    }
  }

  class ServerSession {
    var wire: string            // bytes the socket has not returned yet
    var streambuf: string       // request->streambuf
    const max: nat              // its max_size()
    const find: Messages.Lookup // request->header.find

    constructor (wire: string, max: nat, find: Messages.Lookup)
      ensures this.wire == wire && streambuf == "" && this.max == max && this.find == find
    {
      this.wire := wire;
      streambuf := "";
      this.max := max;
      this.find := find;
    }

    /** `async_read_until(socket, streambuf, "\r\n\r\n")`. */
    method ReadHead() returns (transferred: Option<nat>)
      requires streambuf == ""
      modifies this
      ensures streambuf + wire == old(wire)
      ensures transferred == Heads.BlankEnd(old(wire)[..Min(max, |old(wire)|)])
      ensures |streambuf| <= Min(max, |old(wire)|)
      ensures transferred == None ==> |streambuf| == Min(max, |old(wire)|)
      ensures transferred.Some? ==> transferred.value <= |streambuf|
    {
      while Heads.BlankEnd(streambuf) == None && |streambuf| < max && wire != ""
        invariant streambuf + wire == old(wire) && |streambuf| <= max
        decreases |wire|
      {
        var n := SomeOf(max - |streambuf|, |wire|);
        streambuf := streambuf + wire[..n];
        wire := wire[n..];
      }
      transferred := Heads.BlankEnd(streambuf);
      ghost var front := old(wire)[..Min(max, |old(wire)|)];
      assert streambuf <= front;
      Heads.BlankEndPrefix(streambuf, front);
      if transferred == None {
        assert streambuf == front;
      }
    }

    /** `read` and its handler: what is received is what is specified for some read-ahead. */
    method Read() returns (r: ServerReceived)
      requires streambuf == ""
      modifies this
      ensures exists offers: seq<nat> ::
                && r == ServerReceive(find, old(wire), max, offers)
                && (r.Head? && r.body.Complete? ==> wire == Unread(find, old(wire), max, offers))
    {
      hide Heads.BlankEnd, Messages.ParsedRequest, ServerBody, BodyUnread;
      ghost var all := wire;
      var transferred := ReadHead();
      if transferred == None {
        r := NoHead(if |streambuf| < max then Lost else NotFound);
        assert r == ServerReceive(find, all, max, []);
        return;
      }
      var numAdditionalBytes := |streambuf| - transferred.value;
      assert all[..|streambuf|] == streambuf && all[|streambuf|..] == wire;
      var parsed := Messages.ParseRequest(streambuf);
      if parsed == None {
        r := NoHead(Malformed);
        assert r == ServerReceive(find, all, max, [numAdditionalBytes]);
        return;
      }
      RequestShrinks(streambuf);
      streambuf := parsed.value.rest;
      ghost var left, stream := streambuf, wire;
      var body := ReadBody(parsed.value.fields, numAdditionalBytes);
      r := Head(parsed.value.head, parsed.value.fields, body);
      ghost var later: seq<nat> :|
        && body == ServerBody(find, parsed.value.fields, left, numAdditionalBytes, stream, max, later)
        && (body.Complete? ==> wire == BodyUnread(find, parsed.value.fields, left, numAdditionalBytes, stream, max, later));
      assert Later([numAdditionalBytes] + later) == later;
      assert r == ServerReceive(find, all, max, [numAdditionalBytes] + later);
    }

    method ReadBody(fields: seq<Field>, numAdditionalBytes: nat) returns (outcome: ServerOutcome)
      requires |streambuf| <= max
      modifies this
      ensures exists offers: seq<nat> ::
                && outcome == ServerBody(find, fields, old(streambuf), numAdditionalBytes, old(wire), max, offers)
                && (outcome.Complete? ==> wire == BodyUnread(find, fields, old(streambuf), numAdditionalBytes, old(wire), max, offers))
      ensures outcome.Complete? ==> outcome.body == streambuf
    {
      hide Stoul, ServerContent, ServerDecode, ServerUnread;
      ghost var offers: seq<nat> := [];
      var length := find(fields, "Content-Length");
      if length.Some? {
        var n := Stoul(length.value, 10);
        if n == None {
          outcome := Malformed;
        } else {
          var reader := new Body.BodyReader.Plain(streambuf, wire, max, EndOfFile);
          outcome := reader.ServerReadContent(n.value, numAdditionalBytes);
          wire, streambuf := reader.wire, reader.body;
        }
      } else if find(fields, "Transfer-Encoding") == Some("chunked") {
        var reader := new Body.BodyReader.Chunked(streambuf, wire, max, EndOfFile);
        outcome, offers := reader.ServerReadChunked();
        wire, streambuf := reader.wire, reader.body;
      } else {
        outcome := Complete(streambuf, wire);
      }
      assert outcome == ServerBody(find, fields, old(streambuf), numAdditionalBytes, old(wire), max, offers);
    }
  }

  /** A read returns at least one byte, and no more than there is room for or than have arrived. */
  method SomeOf(room: nat, there: nat) returns (n: nat)
    requires 0 < room && 0 < there
    ensures 0 < n <= Min(room, there)
  {
    n :| 0 < n <= Min(room, there);
  }

  // ---------- the client ----------

  /** The calls of the request callback; `aborted`, if an exception leaves the handler. Or, without a
      call, the request is started again on a new connection. Streams of events are not part of the
      model. */
  datatype ClientReceived = Called(calls: seq<Delivery>, aborted: bool) | Reconnect | EventStream

  /** `s < t` on strings. */
  predicate Less(s: string, t: string) {
    if t == "" then false
    else if s == "" then true
    else s[0] < t[0] || (s[0] == t[0] && Less(s[1..], t[1..]))
  }

  function ClientBody(find: Messages.Lookup, version: string, fields: seq<Field>, left: string, additional: nat,
                      stream: string, max: nat, closing: Closing, offers: seq<nat>): ClientReceived
    requires |left| <= max && 0 < max
  {
    var length := find(fields, "Content-Length");
    if length.Some? then
      match Stoul(length.value, 10)
      case None => Called([], true)
      case Some(n) => Called(LengthDecode(left, additional, stream, n, max).0, false)
    else if find(fields, "Transfer-Encoding") == Some("chunked") then
      var outcome := ClientDecode(left, stream, Max(18, |left|), "", max, offers);
      Called(outcome.calls, outcome.end == Aborted)
    else if Less(version, "1.1") || find(fields, "Connection") == Some("close") then
      Called(CloseDecode(stream, left, max, closing), false)
    else if find(fields, "Content-Type") == Some("text/event-stream") then EventStream
    else Called([Delivery(left, true, NoError)], false)
  }

  /** The position behind the first header end at or behind `n`. */
  function HeadEnd(s: string, n: nat): (r: Option<nat>)
    requires n <= |s| && (n > 0 ==> HeaderEnd.Open(s, n - 1))
    ensures r.Some? ==> HeaderEnd.IsFirstEnd(s, r.value)
    ensures r == None ==> HeaderEnd.Open(s, |s|)
    decreases |s| - n
  {
    if HeaderEnd.EndsHeader(s, n) then Some(n)
    else if n == |s| then None
    else HeadEnd(s, n + 1)
  }

  /** The client's `read`. Where its first read fails, `retry` says whether the request may reconnect:
      whether `attempt_reconnect` is set, the connection is pooled and the read was not cancelled. */
  function ClientReceive(find: Messages.Lookup, wire: string, max: nat, closing: Closing, retry: bool, offers: seq<nat>): ClientReceived {
    var front := wire[..Min(max, |wire|)];
    match HeadEnd(front, 0)
    case None => if retry then Reconnect else Called([Delivery(front, true, TransportError)], false)
    case Some(e) =>
      var ahead := Ahead(0, e, Min(max, |wire|), offers);
      var buffer := wire[..e + ahead];
      match Messages.ParsedResponse(buffer)
      case None => Called([Delivery(GetLine(buffer).value.rest, true, ProtocolError)], false)
      case Some(Response(version, _, fields, left)) =>
        ResponseShrinks(buffer);
        ClientBody(find, version, fields, left, ahead, wire[e + ahead..], max, closing, Later(offers))
  }

  lemma ResponseShrinks(s: string)
    requires Messages.ParsedResponse(s).Some?
    ensures |Messages.ParsedResponse(s).value.rest| <= |s|
  {
    hide Headers.Header, Messages.StatusLine;
    HeaderShrinks(GetLine(s).value.rest);
  }

  lemma HeadEndUnique(s: string, e: nat)
    requires HeaderEnd.IsFirstEnd(s, e)
    ensures HeadEnd(s, 0) == Some(e)
  {
    if HeadEnd(s, 0).Some? {
      HeaderEnd.FirstEndIsUnique(s, HeadEnd(s, 0).value, e);
    }
  }

  /** A front part of `s` has the first header end of `s` if it reaches that far, else none. */
  lemma HeadEndPrefix(a: string, s: string)
    requires a <= s
    ensures HeadEnd(a, 0) == if HeadEnd(s, 0).Some? && HeadEnd(s, 0).value <= |a| then HeadEnd(s, 0) else None
  {
    match HeadEnd(a, 0) {
      case Some(e) =>
        HeaderEnd.FirstEndStays(a, s, e);
        HeadEndUnique(s, e);
      case None =>
        HeaderEnd.OpenPrefix(a, s, |a|);
    }
  }

  /** What the client receives by the head alone, as on the server. */
  lemma ClientReceives(find: Messages.Lookup, wire: string, max: nat, closing: Closing, retry: bool, offers: seq<nat>, e: nat, ahead: nat)
    requires HeadEnd(wire[..Min(max, |wire|)], 0) == Some(e) && ahead == Ahead(0, e, Min(max, |wire|), offers)
    ensures 2 <= e && Heads.BlankSize(wire, e) < e && 0 < max
    ensures match Messages.ParsedResponse(wire[..e])
            case None =>
              wire[..e + ahead] != "" && ClientReceive(find, wire, max, closing, retry, offers)
              == Called([Delivery(GetLine(wire[..e + ahead]).value.rest, true, ProtocolError)], false)
            case Some(Response(version, _, fields, skipped)) =>
              var left := skipped + wire[e..e + ahead];
              && |left| <= max && (skipped == "" <==> Headers.AllHaveColons(Heads.HeaderLines(wire, e, Heads.BlankSize(wire, e))))
              && ClientReceive(find, wire, max, closing, retry, offers)
                 == ClientBody(find, version, fields, left, ahead, wire[e + ahead..], max, closing, Later(offers))
  {
    hide HeadEnd, Messages.ParsedResponse, ClientBody, Headers.AllHaveColons, Heads.HeaderLines, HeaderEnd.IsFirstEnd;
    var buffer := wire[..e + ahead];
    HeadEndPositive(wire[..Min(max, |wire|)]);
    HeadEndPrefix(buffer, wire[..Min(max, |wire|)]);
    Heads.ResponseLeaves(buffer, e);
    SameHead(wire, buffer, e, Heads.BlankSize(buffer, e));
    if Messages.ParsedResponse(buffer).Some? {
      ResponseShrinks(buffer);
    }
  }

  /** With a response buffer of size zero no head is ever found, so no body reader is entered. */
  lemma NoRoomNoHead(find: Messages.Lookup, wire: string, closing: Closing, retry: bool, offers: seq<nat>)
    ensures ClientReceive(find, wire, 0, closing, retry, offers)
         == if retry then Reconnect else Called([Delivery("", true, TransportError)], false)
  {
    assert wire[..0] == "";
    if HeadEnd("", 0).Some? {
      HeadEndPositive("");
    }
  }

  /** The same on the client, whatever the size of its buffer: the parts delivered make up exactly the
      announced bytes if and only if no more had been read and every header line has a colon. */
  lemma ClientContentIsExact(find: Messages.Lookup, wire: string, max: nat, closing: Closing, retry: bool, offers: seq<nat>,
                             e: nat, ahead: nat, r: Messages.Response, n: nat)
    requires HeadEnd(wire[..Min(max, |wire|)], 0) == Some(e) && ahead == Ahead(0, e, Min(max, |wire|), offers)
    requires Messages.ParsedResponse(wire[..e]) == Some(r)
    requires find(r.fields, "Content-Length").Some? && Stoul(find(r.fields, "Content-Length").value, 10) == Some(n)
    requires e + n <= |wire|
    ensures 2 <= e && Heads.BlankSize(wire, e) < e
    ensures var got := ClientReceive(find, wire, max, closing, retry, offers);
            && got.Called? && !got.aborted && WellDelivered(got.calls, max)
            && (Content(got.calls) == wire[e..e + n]
                <==> ahead <= n && Headers.AllHaveColons(Heads.HeaderLines(wire, e, Heads.BlankSize(wire, e))))
  {
    hide HeadEnd, Messages.ParsedResponse, Stoul, Headers.AllHaveColons, Heads.HeaderLines, ClientReceive, LengthDecode, Delivered;
    ClientReceives(find, wire, max, closing, retry, offers, e, ahead);
    LengthDelivered(r.rest + wire[e..e + ahead], ahead, wire[e + ahead..], n, max);
    BehindIsWire(wire, e, ahead, r.rest, n);
  }

  /** The head of a response in chunks. */
  ghost predicate ResponseAt(find: Messages.Lookup, wire: string, max: nat, e: nat, r: Messages.Response) {
    && HeadEnd(wire[..Min(max, |wire|)], 0) == Some(e)
    && Messages.ParsedResponse(wire[..e]) == Some(r) && InChunks(find, r.fields)
  }

  lemma ClientReceivesChunks(find: Messages.Lookup, wire: string, max: nat, closing: Closing, retry: bool, offers: seq<nat>,
                             e: nat, ahead: nat, r: Messages.Response)
    requires ResponseAt(find, wire, max, e, r) && ahead == Ahead(0, e, Min(max, |wire|), offers)
    ensures var left := r.rest + wire[e..e + ahead];
            && left + wire[e + ahead..] == r.rest + wire[e..]
            && var outcome := ClientDecode(left, wire[e + ahead..], Max(18, |r.rest| + ahead), "", max, Later(offers));
               ClientReceive(find, wire, max, closing, retry, offers) == Called(outcome.calls, outcome.end == Aborted)
  {
    hide HeadEnd, Messages.ParsedResponse, ClientReceive, ClientBody, InChunks, ClientDecode, Headers.AllHaveColons, Heads.HeaderLines;
    ClientReceives(find, wire, max, closing, retry, offers, e, ahead);
    Rejoined(r.rest, wire, e, ahead);
    CallsInChunks(find, r.version, r.fields, r.rest + wire[e..e + ahead], ahead, wire[e + ahead..], max, closing, Later(offers));
  }

  lemma CallsInChunks(find: Messages.Lookup, version: string, fields: seq<Field>, left: string, additional: nat, stream: string,
                      max: nat, closing: Closing, offers: seq<nat>)
    requires |left| <= max && 0 < max && InChunks(find, fields)
    ensures var outcome := ClientDecode(left, stream, Max(18, |left|), "", max, offers);
            ClientBody(find, version, fields, left, additional, stream, max, closing, offers) == Called(outcome.calls, outcome.end == Aborted)
  {
    hide ClientDecode;
  }

  /** A response in chunks makes the same calls for every splitting if what follows the head is steady. */
  lemma ClientMessageIsSteady(find: Messages.Lookup, wire: string, max: nat, closing: Closing, retry: bool,
                              offers: seq<nat>, offers': seq<nat>, e: nat, r: Messages.Response)
    requires ResponseAt(find, wire, max, e, r)
    requires ClientSteady(r.rest + wire[e..], Max(18, |r.rest|), LargestLine(wire, max, e, r.rest), 0, max)
    ensures ClientReceive(find, wire, max, closing, retry, offers) == ClientReceive(find, wire, max, closing, retry, offers')
  {
    hide HeadEnd, Messages.ParsedResponse, ClientReceive, ClientDecode, ClientSteady, InChunks;
    var a, a' := Ahead(0, e, Min(max, |wire|), offers), Ahead(0, e, Min(max, |wire|), offers');
    ClientReceivesChunks(find, wire, max, closing, retry, offers, e, a, r);
    ClientReceivesChunks(find, wire, max, closing, retry, offers', e, a', r);
    ClientReadsDoNotMatter(r.rest + wire[e..e + a], wire[e + a..], Later(offers), Max(18, |r.rest| + a),
                           r.rest + wire[e..e + a'], wire[e + a'..], Later(offers'), Max(18, |r.rest| + a'),
                           Max(18, |r.rest|), LargestLine(wire, max, e, r.rest), "", max);
  }

  /** A well-formed response in chunks, each of which fits, is delivered whole and without an error if and
      only if each size line fits its buffer. */
  lemma ClientMessageIsWhole(find: Messages.Lookup, wire: string, max: nat, closing: Closing, retry: bool, offers: seq<nat>,
                             e: nat, ahead: nat, r: Messages.Response,
                             cs: seq<Chunk>, zero: string, ext: string, rest: string, high: nat)
    requires ResponseAt(find, wire, max, e, r) && ahead == Ahead(0, e, Min(max, |wire|), offers)
    requires ChunksFollow(wire, e, r.rest, cs, zero, ext, rest, high) && forall i :: 0 <= i < |cs| ==> |cs[i].data| <= max
    ensures var got := ClientReceive(find, wire, max, closing, retry, offers);
            var whole := WireOk(cs, zero, ext, Max(18, |r.rest| + ahead));
            && got.Called? && !got.aborted
            && Delivered(got.calls, max, if whole then NoError else TransportError)
            && Content(got.calls) <= Payload(cs) && (whole ==> Content(got.calls) == Payload(cs))
  {
    hide HeadEnd, Messages.ParsedResponse, ClientReceive, ClientDecode, InChunks, Wire, WireOk, Payload, Delivered, Content;
    ClientReceivesChunks(find, wire, max, closing, retry, offers, e, ahead, r);
    ClientRoundTripIff(cs, zero, ext, rest, high, Max(18, |r.rest| + ahead),
                       r.rest + wire[e..e + ahead], wire[e + ahead..], Later(offers), "", max);
    assert "" + Payload(cs) == Payload(cs);
  }

  /** A head that announces chunks has room for `Transfer-Encoding` and `chunked`. */
  lemma ChunkedHeadIsLong(find: Messages.Lookup, s: string, r: Messages.Response)
    requires Messages.Finds(find) && Messages.ParsedResponse(s) == Some(r) && find(r.fields, "Transfer-Encoding") == Some("chunked")
    ensures 24 <= |s|
  {
    hide Headers.Header, Messages.StatusLine, Messages.CaseInsensitiveEqual;
    assert Messages.Found(r.fields, "Transfer-Encoding", find(r.fields, "Transfer-Encoding"));
    var f :| f in r.fields && Messages.CaseInsensitiveEqual(f.name, "Transfer-Encoding") && f.value == "chunked";
    SameLength(f.name, "Transfer-Encoding");
    Headers.FieldsWithin(GetLine(s).value.rest, f);
    assert |"Transfer-Encoding"| == 17 && |"chunked"| == 7;
  }

  lemma SameLength(s: string, t: string)
    requires Messages.CaseInsensitiveEqual(s, t)
    ensures |s| == |t|
  {
  }

  /** The buffer for size lines is never larger than that of a response part, as the head has been read
      through the latter. */
  lemma LineBufferIsSmaller(find: Messages.Lookup, wire: string, max: nat, e: nat, ahead: nat, r: Messages.Response)
    requires Messages.Finds(find) && ResponseAt(find, wire, max, e, r) && e + ahead <= Min(max, |wire|)
    ensures Max(18, |r.rest| + ahead) <= max
  {
    hide HeadEnd, Messages.ParsedResponse, Messages.Finds;
    ChunkedHeadIsLong(find, wire[..e], r);
    ResponseShrinks(wire[..e]);
  }

  /** When an exception leaves the client's handler: a Content-Length that is no number, or chunks of
      which one overruns its part. Only a size whose 64-bit sum with the part so far wraps around can. */
  lemma ClientAbortsIff(find: Messages.Lookup, wire: string, max: nat, closing: Closing, retry: bool, offers: seq<nat>,
                        e: nat, ahead: nat, r: Messages.Response)
    requires Messages.Finds(find) && ResponseAt(find, wire, max, e, r) && ahead == Ahead(0, e, Min(max, |wire|), offers)
    requires max < ULONG_LIMIT
    ensures var got := ClientReceive(find, wire, max, closing, retry, offers);
            var line, stream, cap := r.rest + wire[e..e + ahead], wire[e + ahead..], Max(18, |r.rest| + ahead);
            && got.Called? && cap <= max
            && (got.aborted <==> Overruns(line, stream, cap, 0, max, Later(offers)))
            && (SizesFit(line, stream, cap, 0, max, Later(offers)) ==> !got.aborted)
  {
    hide Messages.Finds, ResponseAt, ClientReceive, ClientDecode, Overruns, SizesFit;
    ClientReceivesChunks(find, wire, max, closing, retry, offers, e, ahead, r);
    WithinWire(find, wire, max, e, r);
    LineBufferIsSmaller(find, wire, max, e, ahead, r);
    var line, stream, cap := r.rest + wire[e..e + ahead], wire[e + ahead..], Max(18, |r.rest| + ahead);
    AbortedIffOverruns(line, stream, cap, "", max, Later(offers));
    if SizesFit(line, stream, cap, 0, max, Later(offers)) {
      FittingSizesAreNotAborted(line, stream, cap, "", max, Later(offers));
    }
  }

  lemma WithinWire(find: Messages.Lookup, wire: string, max: nat, e: nat, r: Messages.Response)
    requires ResponseAt(find, wire, max, e, r)
    ensures e <= Min(max, |wire|)
  {
    hide HeadEnd, Messages.ParsedResponse;
    HeadEndPositive(wire[..Min(max, |wire|)]);
  }

  /** The client, too: with that stream behind any head that announces chunks, an exception leaves the
      handler or not, as the reads have it. */
  lemma ClientDependsOnReads(find: Messages.Lookup, wire: string, max: nat, closing: Closing, retry: bool, e: nat, r: Messages.Response,
                             size: string, data: string, tail: string)
    requires ResponseAt(find, wire, max, e, r) && r.rest == "" && Wrapping(wire[e..], size, data, tail, 18, max)
    ensures ClientReceive(find, wire, max, closing, retry, [0, 0, 3]) == Called([], true)
    ensures ClientReceive(find, wire, max, closing, retry, [0, 0, 0])
         == Called([Delivery(data + tail[..2], true, TransportError)], false)
  {
    WithinWire(find, wire, max, e, r);
    hide ResponseAt, ClientReceive, ClientDecode;
    ClientReceivesChunks(find, wire, max, closing, retry, [0, 0, 3], e, 0, r);
    ClientReceivesChunks(find, wire, max, closing, retry, [0, 0, 0], e, 0, r);
    assert r.rest + wire[e..e + 0] == "" && wire[e + 0..] == wire[e..];
    assert Later([0, 0, 3]) == [0, 3] && Later([0, 0, 0]) == [0, 0];
    WrappedSizeDependsOnReads(wire[e..], size, data, tail, 18, max, [0, 3], [0, 0]);
  }

  /** A response without a length and without chunks. */
  lemma CallsWithoutLength(find: Messages.Lookup, version: string, fields: seq<Field>, left: string, additional: nat, stream: string,
                           max: nat, closing: Closing, offers: seq<nat>)
    requires |left| <= max && 0 < max
    requires find(fields, "Content-Length") == None && find(fields, "Transfer-Encoding") != Some("chunked")
    ensures ClientBody(find, version, fields, left, additional, stream, max, closing, offers)
         == if Before(version, "1.1") || find(fields, "Connection") == Some("close") then Called(CloseDecode(stream, left, max, closing), false)
            else if find(fields, "Content-Type") == Some("text/event-stream") then EventStream
            else Called([Delivery(left, true, NoError)], false)
  {
    hide CloseDecode;
    LessIff(version, "1.1");
  }

  /** Of a version before 1.1, or with a field `Connection: close`, such a response is delivered whole when
      the connection ends, whatever the reads, and the last call has an error exactly if that is not by end
      of file. */
  lemma ClientReadsUntilClose(find: Messages.Lookup, wire: string, max: nat, closing: Closing, retry: bool, offers: seq<nat>,
                              e: nat, r: Messages.Response)
    requires HeadEnd(wire[..Min(max, |wire|)], 0) == Some(e) && Messages.ParsedResponse(wire[..e]) == Some(r)
    requires find(r.fields, "Content-Length") == None && find(r.fields, "Transfer-Encoding") != Some("chunked")
    requires Before(r.version, "1.1") || find(r.fields, "Connection") == Some("close")
    ensures var got := ClientReceive(find, wire, max, closing, retry, offers);
            && e <= |wire| && got.Called? && !got.aborted
            && Delivered(got.calls, max, if closing == EndOfFile then NoError else TransportError)
            && Content(got.calls) == r.rest + wire[e..]
  {
    hide HeadEnd, Messages.ParsedResponse, ClientReceive, ClientBody, CloseDecode, Delivered, Content, Before, Headers.AllHaveColons, Heads.HeaderLines;
    HeadEndPositive(wire[..Min(max, |wire|)]);
    var ahead := Ahead(0, e, Min(max, |wire|), offers);
    ClientReceives(find, wire, max, closing, retry, offers, e, ahead);
    var left := r.rest + wire[e..e + ahead];
    CallsWithoutLength(find, r.version, r.fields, left, ahead, wire[e + ahead..], max, closing, Later(offers));
    CloseDelivered(wire[e + ahead..], left, max, closing);
    Rejoined(r.rest, wire, e, ahead);
  }

  /** A body with Content-Length that does not arrive whole is delivered as far as it arrives, and then the
      error; a length that is no number makes an exception leave the handler. */
  lemma ClientContentFails(find: Messages.Lookup, wire: string, max: nat, closing: Closing, retry: bool, offers: seq<nat>,
                           e: nat, r: Messages.Response)
    requires HeadEnd(wire[..Min(max, |wire|)], 0) == Some(e) && Messages.ParsedResponse(wire[..e]) == Some(r)
    requires find(r.fields, "Content-Length").Some?
    ensures var got, n := ClientReceive(find, wire, max, closing, retry, offers), Stoul(find(r.fields, "Content-Length").value, 10);
            && e <= |wire| && got.Called? && (n == None ==> got == Called([], true))
            && (n.Some? && e + n.value > |wire| ==>
                  !got.aborted && Delivered(got.calls, max, TransportError) && Content(got.calls) == r.rest + wire[e..])
  {
    hide HeadEnd, Messages.ParsedResponse, ClientReceive, Stoul, LengthDecode, Delivered, Content, Headers.AllHaveColons, Heads.HeaderLines;
    HeadEndPositive(wire[..Min(max, |wire|)]);
    var ahead := Ahead(0, e, Min(max, |wire|), offers);
    ClientReceives(find, wire, max, closing, retry, offers, e, ahead);
    var n := Stoul(find(r.fields, "Content-Length").value, 10);
    if n.Some? && e + n.value > |wire| {
      LengthCutOff(r.rest + wire[e..e + ahead], ahead, wire[e + ahead..], n.value, max);
      Rejoined(r.rest, wire, e, ahead);
    }
  }

  /** A response in chunks that is cut off before the end of its last line is delivered as far as it has
      arrived, and then the error, whatever the reads. */
  lemma ClientMessageIsCutOff(find: Messages.Lookup, wire: string, max: nat, closing: Closing, retry: bool, offers: seq<nat>,
                              e: nat, r: Messages.Response, cs: seq<Chunk>, zero: string, ext: string, n: nat)
    requires ResponseAt(find, wire, max, e, r) && WireOk(cs, zero, ext, Max(18, |r.rest|))
    requires |Payload(cs)| < ULONG_LIMIT && forall i :: 0 <= i < |cs| ==> |cs[i].data| <= max
    requires n < |Wire(cs, zero, ext, "")| && e <= |wire| && r.rest + wire[e..] == Wire(cs, zero, ext, "")[..n]
    ensures var got := ClientReceive(find, wire, max, closing, retry, offers);
            && got.Called? && !got.aborted && Delivered(got.calls, max, TransportError) && Content(got.calls) == Arrived(cs, n)
  {
    hide HeadEnd, Messages.ParsedResponse, ClientReceive, ClientDecode, InChunks, Wire, WireOk, Payload, Delivered, Content;
    WithinWire(find, wire, max, e, r);
    var ahead := Ahead(0, e, Min(max, |wire|), offers);
    ClientReceivesChunks(find, wire, max, closing, retry, offers, e, ahead, r);
    RoomierLineBuffer(cs, zero, ext, Max(18, |r.rest|), Max(18, |r.rest| + ahead));
    ClientCutOff(cs, zero, ext, n, Max(18, |r.rest| + ahead), r.rest + wire[e..e + ahead], wire[e + ahead..], Later(offers), "", max);
    assert "" + Arrived(cs, n) == Arrived(cs, n);
  }

  /** One with a line that has no number where a size belongs: the data before it, and a protocol error. */
  lemma ClientMessageIsMalformed(find: Messages.Lookup, wire: string, max: nat, closing: Closing, retry: bool, offers: seq<nat>,
                                 e: nat, r: Messages.Response, cs: seq<Chunk>, bad: string, rest: string)
    requires ResponseAt(find, wire, max, e, r) && BadWire(cs, bad, Max(18, |r.rest|))
    requires |Payload(cs)| < ULONG_LIMIT && forall i :: 0 <= i < |cs| ==> |cs[i].data| <= max
    requires e <= |wire| && r.rest + wire[e..] == Wire(cs, bad, "", rest)
    ensures var got := ClientReceive(find, wire, max, closing, retry, offers);
            && got.Called? && !got.aborted && Delivered(got.calls, max, ProtocolError) && Content(got.calls) == Payload(cs)
  {
    hide HeadEnd, Messages.ParsedResponse, ClientReceive, ClientDecode, InChunks, Wire, BadWire, Payload, Delivered, Content;
    WithinWire(find, wire, max, e, r);
    var ahead := Ahead(0, e, Min(max, |wire|), offers);
    ClientReceivesChunks(find, wire, max, closing, retry, offers, e, ahead, r);
    RoomierForBad(cs, bad, Max(18, |r.rest|), Max(18, |r.rest| + ahead));
    ClientMalformed(cs, bad, rest, Max(18, |r.rest| + ahead), r.rest + wire[e..e + ahead], wire[e + ahead..], Later(offers), "", max);
    assert "" + Payload(cs) == Payload(cs);
  }

  /** `s` comes before `t` in lexicographic order: it is a proper front part of it, or has the smaller
      character where they first differ. */
  ghost predicate Before(s: string, t: string) {
    (s <= t && |s| < |t|) || exists k: nat :: k < |s| && k < |t| && s[..k] == t[..k] && s[k] < t[k]
  }

  lemma {:induction false} LessIff(s: string, t: string)
    ensures Less(s, t) <==> Before(s, t)
  {
    if s != "" && t != "" && s[0] == t[0] {
      LessIff(s[1..], t[1..]);
      if Before(s[1..], t[1..]) && !(s[1..] <= t[1..] && |s| < |t|) {
        var k: nat :| k < |s[1..]| && k < |t[1..]| && s[1..][..k] == t[1..][..k] && s[1..][k] < t[1..][k];
        assert s[..k + 1] == [s[0]] + s[1..][..k] && t[..k + 1] == [t[0]] + t[1..][..k];
      }
      if Before(s, t) && !(s <= t && |s| < |t|) {
        var k: nat :| k < |s| && k < |t| && s[..k] == t[..k] && s[k] < t[k];
        assert s[1..][..k - 1] == s[..k][1..] && t[1..][..k - 1] == t[..k][1..];
      }
    } else if s != "" && t != "" {
      assert s[0] < t[0] ==> s[..0] == t[..0];
      if Before(s, t) {
        assert s[..1][0] == s[0] && t[..1][0] == t[0];
        FirstDecides(s, t);
      }
    }
  }

  lemma FirstDecides(s: string, t: string)
    requires s != "" && t != "" && s[0] != t[0] && Before(s, t)
    ensures s[0] < t[0]
  {
    if !(s <= t && |s| < |t|) {
      var k: nat :| k < |s| && k < |t| && s[..k] == t[..k] && s[k] < t[k];
      SameFirst(s, t, k);
    }
  }

  lemma SameFirst(s: string, t: string, k: nat)
    requires k <= |s| && k <= |t| && s[..k] == t[..k]
    ensures k > 0 ==> s[0] == t[0]
  {
    if k > 0 {
      assert s[..k][0] == t[..k][0];
    }
  }

  /** Of the versions in use, 1.0 and 0.9 come before 1.1. */
  lemma OldVersions()
    ensures Before("1.0", "1.1") && Before("0.9", "1.1") && Before("1", "1.1") && Before("", "1.1")
    ensures !Before("1.1", "1.1") && !Before("2", "1.1") && !Before("2.0", "1.1")
  {
    assert "1.0"[..2] == "1.1"[..2] && "0.9"[..0] == "1.1"[..0] && "1" <= "1.1";
    LessIff("1.1", "1.1");
    NotLess("1.1");
    LessIff("2", "1.1");
    LessIff("2.0", "1.1");
  }

  lemma {:induction false} NotLess(s: string)
    ensures !Less(s, s)
  {
    if s != "" {
      NotLess(s[1..]);
    }
  }

  /** What the promise of a synchronous request holds after the calls. */
  ghost function Answer(find: Messages.Lookup, wire: string, max: nat, closing: Closing, retry: bool, offers: seq<nat>): SyncRequest.Promise {
    var got := ClientReceive(find, wire, max, closing, retry, offers);
    if got.Called? then SyncRequest.Verdict("", got.calls, max) else SyncRequest.Pending
  }

  lemma DeliveredVerdict(calls: seq<Delivery>, max: nat, whole: bool, body: string)
    requires Delivered(calls, max, if whole then NoError else TransportError)
    requires Content(calls) <= body && (whole ==> Content(calls) == body)
    ensures whole ==>
              SyncRequest.Verdict("", calls, max)
              == if |body| <= max then SyncRequest.Fulfilled(body) else SyncRequest.Failed(SyncRequest.MessageSize)
    ensures !whole && |body| <= max ==>
              SyncRequest.Verdict("", calls, max) == SyncRequest.Failed(SyncRequest.Received(TransportError))
  {
    if whole {
      SyncRequest.WholeBodyIffItFits(calls, "", max);
      assert "" + Content(calls) == body;
    } else {
      SyncRequest.FinalErrorFails(calls, "", max, TransportError);
      SyncRequest.FrontIsShorter(calls);
    }
  }

  lemma {:induction false} ChunksWithin(cs: seq<Chunk>)
    ensures forall i :: 0 <= i < |cs| ==> |cs[i].data| <= |Payload(cs)|
  {
    if cs != [] {
      ChunksWithin(cs[1..]);
      assert forall i :: 0 < i < |cs| ==> cs[i] == cs[1..][i - 1];
    }
  }

  /** For synchronous requests, as on the server: the answer to a well-formed response in chunks that fits
      is the same for every splitting if and only if no size line is longer than the smallest buffer for
      them, or one is longer than the largest. */
  lemma ClientMessageIsAlikeIff(find: Messages.Lookup, wire: string, max: nat, closing: Closing, retry: bool, e: nat, r: Messages.Response,
                                cs: seq<Chunk>, zero: string, ext: string, rest: string, high: nat)
    requires ResponseAt(find, wire, max, e, r)
    requires ChunksFollow(wire, e, r.rest, cs, zero, ext, rest, high) && |Payload(cs)| <= max
    ensures (forall offers: seq<nat>, offers': seq<nat> ::
               Answer(find, wire, max, closing, retry, offers) == Answer(find, wire, max, closing, retry, offers'))
       <==> WireOk(cs, zero, ext, Max(18, |r.rest|)) || !WireOk(cs, zero, ext, LargestLine(wire, max, e, r.rest))
  {
    hide HeadEnd, Messages.ParsedResponse, ClientReceive, InChunks, WireOk, Payload, ChunksFollow, Delivered, Content, SyncRequest.Verdict;
    var most := Min(max, |wire|) - e;
    ChunksWithin(cs);
    forall offers: seq<nat>
      ensures var cap := Max(18, |r.rest| + Ahead(0, e, Min(max, |wire|), offers));
              && Answer(find, wire, max, closing, retry, offers)
                 == (if WireOk(cs, zero, ext, cap) then SyncRequest.Fulfilled(Payload(cs))
                     else SyncRequest.Failed(SyncRequest.Received(TransportError)))
              && (WireOk(cs, zero, ext, Max(18, |r.rest|)) ==> WireOk(cs, zero, ext, cap))
              && (WireOk(cs, zero, ext, cap) ==> WireOk(cs, zero, ext, LargestLine(wire, max, e, r.rest)))
    {
      var ahead := Ahead(0, e, Min(max, |wire|), offers);
      var cap := Max(18, |r.rest| + ahead);
      ClientMessageIsWhole(find, wire, max, closing, retry, offers, e, ahead, r, cs, zero, ext, rest, high);
      DeliveredVerdict(ClientReceive(find, wire, max, closing, retry, offers).calls, max, WireOk(cs, zero, ext, cap), Payload(cs));
      RoomierLineBuffer(cs, zero, ext, Max(18, |r.rest|), cap);
      RoomierLineBuffer(cs, zero, ext, cap, LargestLine(wire, max, e, r.rest));
    }
    assert Ahead(0, e, Min(max, |wire|), [0]) == 0 && Ahead(0, e, Min(max, |wire|), [most]) == most;
    assert Answer(find, wire, max, closing, retry, [0]) == Answer(find, wire, max, closing, retry, [most]) <==>
           (WireOk(cs, zero, ext, Max(18, |r.rest|)) <==> WireOk(cs, zero, ext, LargestLine(wire, max, e, r.rest)));
  }

  class ClientSession {
    var wire: string
    var streambuf: string   // response->streambuf
    const max: nat
    const closing: Closing
    const retry: bool       // as in `ClientReceive`
    const find: Messages.Lookup

    constructor (wire: string, max: nat, closing: Closing, retry: bool, find: Messages.Lookup)
      ensures this.wire == wire && streambuf == "" && this.max == max && this.closing == closing
      ensures this.retry == retry && this.find == find
    {
      this.retry := retry;
      this.find := find;
      this.wire := wire;
      streambuf := "";
      this.max := max;
      this.closing := closing;
    }

    /** `async_read_until(socket, streambuf, HeaderEndMatch())`: the matcher resumes where the last read
        ended. */
    method ReadHead() returns (transferred: Option<nat>)
      requires streambuf == ""
      modifies this
      ensures streambuf + wire == old(wire)
      ensures transferred == HeadEnd(old(wire)[..Min(max, |old(wire)|)], 0)
      ensures |streambuf| <= Min(max, |old(wire)|)
      ensures transferred == None ==> |streambuf| == Min(max, |old(wire)|)
      ensures transferred.Some? ==> transferred.value <= |streambuf|
    {
      var matcher := new HeaderEnd.HeaderEndMatch();
      transferred := None;
      while transferred == None && |streambuf| < max && wire != ""
        invariant streambuf + wire == old(wire) && |streambuf| <= max
        invariant transferred == None ==> matcher.Valid() && matcher.seen == streambuf
        invariant transferred.Some? ==> HeaderEnd.IsFirstEnd(streambuf, transferred.value)
        invariant fresh(matcher)
        decreases |wire|
      {
        hide HeaderEnd.IsFirstEnd, HeaderEnd.Open, HeaderEnd.Progress;
        var n := SomeOf(max - |streambuf|, |wire|);
        var it, matched := matcher.Match(wire[..n]);
        if matched {
          transferred := Some(|streambuf| + it);
        }
        streambuf := streambuf + wire[..n];
        wire := wire[n..];
      }
      ghost var front := old(wire)[..Min(max, |old(wire)|)];
      assert streambuf <= front;
      if transferred.Some? {
        HeaderEnd.FirstEndStays(streambuf, front, transferred.value);
        HeadEndUnique(front, transferred.value);
      } else {
        assert streambuf == front;
        NoHeadEnd(front);
      }
    }

    /** `read` and its handler: the calls made are those specified for some read-ahead. */
    method Read() returns (r: ClientReceived)
      requires streambuf == ""
      modifies this
      ensures exists offers: seq<nat> :: r == ClientReceive(find, old(wire), max, closing, retry, offers)
    {
      hide HeadEnd, Messages.ParsedResponse, ClientBody, HeaderEnd.IsFirstEnd, HeaderEnd.Open;
      ghost var all := wire;
      var transferred := ReadHead();
      assert all[..|streambuf|] == streambuf && all[|streambuf|..] == wire;
      if transferred == None {
        r := if retry then Reconnect else Called([Delivery(streambuf, true, TransportError)], false);
        assert r == ClientReceive(find, all, max, closing, retry, []);
        return;
      }
      var numAdditionalBytes := |streambuf| - transferred.value;
      HeadEndPositive(all[..Min(max, |all|)]);
      assert all[..transferred.value + numAdditionalBytes] == streambuf != "";
      var parsed := Messages.ParseResponse(streambuf);
      if parsed == None {
        r := Called([Delivery(GetLine(streambuf).value.rest, true, ProtocolError)], false);
        assert r == ClientReceive(find, all, max, closing, retry, [numAdditionalBytes]);
        return;
      }
      ResponseShrinks(streambuf);
      streambuf := parsed.value.rest;
      r := ReadBody(parsed.value.version, parsed.value.fields, numAdditionalBytes);
      ghost var later :| r == ClientBody(find, parsed.value.version, parsed.value.fields, streambuf, numAdditionalBytes, wire, max, closing, later);
      assert Later([numAdditionalBytes] + later) == later;
      assert r == ClientReceive(find, all, max, closing, retry, [numAdditionalBytes] + later);
    }

    method ReadBody(version: string, fields: seq<Field>, numAdditionalBytes: nat) returns (r: ClientReceived)
      requires |streambuf| <= max && 0 < max
      ensures exists offers: seq<nat> :: r == ClientBody(find, version, fields, streambuf, numAdditionalBytes, wire, max, closing, offers)
    {
      hide Stoul, ContentDecode, ClientDecode, CloseDecode, Less;
      ghost var offers: seq<nat> := [];
      var length := find(fields, "Content-Length");
      if length.Some? {
        var contentLength := Stoul(length.value, 10);
        if contentLength == None {
          r := Called([], true);
        } else {
          var reader := new Body.BodyReader.Plain(streambuf, wire, max, closing);
          if contentLength.value > numAdditionalBytes {
            reader.ReadContent(contentLength.value - numAdditionalBytes);
          } else {
            reader.Callback(true, NoError);
          }
          assert [] + reader.calls == reader.calls;
          r := Called(reader.calls, false);
        }
      } else if find(fields, "Transfer-Encoding") == Some("chunked") {
        var reader := new Body.BodyReader.Chunked(streambuf, wire, max, closing);
        var end;
        end, offers := reader.ClientReadChunked();
        assert [] + reader.calls == reader.calls;
        r := Called(reader.calls, end == Aborted);
      } else if Less(version, "1.1") || find(fields, "Connection") == Some("close") {
        var reader := new Body.BodyReader.Plain(streambuf, wire, max, closing);
        reader.ReadContentUntilClose();
        assert [] + reader.calls == reader.calls;
        r := Called(reader.calls, false);
      } else if find(fields, "Content-Type") == Some("text/event-stream") {
        r := EventStream;
      } else {
        r := Called([Delivery(streambuf, true, NoError)], false);
      }
      assert r == ClientBody(find, version, fields, streambuf, numAdditionalBytes, wire, max, closing, offers);
    }
  }

  lemma NoHeadEnd(s: string)
    requires HeaderEnd.Open(s, |s|)
    ensures HeadEnd(s, 0) == None
  {
  }

  lemma HeadEndPositive(s: string)
    requires HeadEnd(s, 0).Some?
    ensures 0 < HeadEnd(s, 0).value <= |s|
  {
  }

  // ---------- synchronous requests ----------

  /** Whatever the server sends, however it is split into reads and however the connection ends, the
      calls settle the promise of a synchronous request exactly once, unless the handler is aborted. */
  lemma ResponseSettles(find: Messages.Lookup, wire: string, max: nat, closing: Closing, retry: bool, offers: seq<nat>)
    requires ClientReceive(find, wire, max, closing, retry, offers).Called?
    ensures var r := ClientReceive(find, wire, max, closing, retry, offers);
            if r.aborted then SyncRequest.AllPartial(r.calls, max) else SyncRequest.SettlesOnce(r.calls, max)
  {
    hide HeadEnd, Messages.ParsedResponse, HeaderEnd.IsFirstEnd, HeaderEnd.Open, ClientBody;
    var front := wire[..Min(max, |wire|)];
    if HeadEnd(front, 0).Some? {
      HeadEndPositive(front);
      var e := HeadEnd(front, 0).value;
      var ahead := Ahead(0, e, Min(max, |wire|), offers);
      match Messages.ParsedResponse(wire[..e + ahead])
      case None =>
      case Some(Response(version, _, fields, left)) =>
        ResponseShrinks(wire[..e + ahead]);
        BodySettles(find, version, fields, left, ahead, wire[e + ahead..], max, closing, Later(offers));
    }
  }

  lemma BodySettles(find: Messages.Lookup, version: string, fields: seq<Field>, left: string, additional: nat,
                    stream: string, max: nat, closing: Closing, offers: seq<nat>)
    requires |left| <= max && 0 < max
    requires ClientBody(find, version, fields, left, additional, stream, max, closing, offers).Called?
    ensures var r := ClientBody(find, version, fields, left, additional, stream, max, closing, offers);
            if r.aborted then SyncRequest.AllPartial(r.calls, max) else SyncRequest.SettlesOnce(r.calls, max)
  {
    hide Stoul, ContentDecode, ClientDecode, CloseDecode, Less;
    var length := find(fields, "Content-Length");
    if length.Some? {
      var n := Stoul(length.value, 10);
      if n.Some? && n.value > additional {
        SyncRequest.ContentSettlesOnce(stream, left, n.value - additional, max);
      }
    } else if find(fields, "Transfer-Encoding") == Some("chunked") {
      SyncRequest.ChunkedSettles(left, stream, Max(18, |left|), "", max, offers);
    } else {
      SyncRequest.CloseSettlesOnce(stream, left, max, closing);
    }
    SyncRequest.OneCallSettles(left, max, NoError);
  }

  lemma SettlingCalls(calls: seq<Delivery>, aborted: bool, max: nat)
    requires if aborted then SyncRequest.AllPartial(calls, max) else SyncRequest.SettlesOnce(calls, max)
    ensures SyncRequest.OnlyFinalIsLast(calls) && forall i :: 0 <= i < |calls| ==> |calls[i].content| <= max
    ensures SyncRequest.Verdict("", calls, max) == SyncRequest.Pending <==> aborted && |Content(calls)| <= max
  {
    if aborted {
      SyncRequest.PartialVerdict(calls, "", max);
    } else {
      SyncRequest.LastSettles(calls, "", max);
      assert forall i :: 0 <= i < |calls| - 1 ==> calls[i] == calls[..|calls| - 1][i];
    }
  }

  /** How it goes with a connection: it is not made, or the request is not written, or what arrives. */
  datatype Attempt = NotConnected | NotWritten | Answered(wire: string, closing: Closing)

  function Attempted(find: Messages.Lookup, a: Attempt, max: nat, retry: bool, offers: seq<nat>): ClientReceived {
    match a
    case NotConnected => Called([Delivery("", true, TransportError)], false)
    case NotWritten => if retry then Reconnect else Called([Delivery("", true, TransportError)], false)
    case Answered(wire, closing) => ClientReceive(find, wire, max, closing, retry, offers)
  }

  /** What a request receives in the end: on its first connection or, if it reconnects, on the second,
      where a failure is final. */
  function Exchange(find: Messages.Lookup, a: Attempt, again: Attempt, max: nat, retry: bool, offers: seq<nat>, offers': seq<nat>): ClientReceived {
    var first := Attempted(find, a, max, retry, offers);
    if first.Reconnect? then Attempted(find, again, max, false, offers') else first
  }

  lemma AttemptSettles(find: Messages.Lookup, a: Attempt, max: nat, retry: bool, offers: seq<nat>)
    ensures var r := Attempted(find, a, max, retry, offers);
            && (r.Reconnect? ==> retry)
            && (r.Called? ==> if r.aborted then SyncRequest.AllPartial(r.calls, max) else SyncRequest.SettlesOnce(r.calls, max))
  {
    SyncRequest.OneCallSettles("", max, TransportError);
    if a.Answered? {
      OnlyRetried(find, a.wire, max, a.closing, retry, offers);
      hide ClientReceive, SyncRequest.AllPartial, SyncRequest.SettlesOnce;
      if ClientReceive(find, a.wire, max, a.closing, retry, offers).Called? {
        ResponseSettles(find, a.wire, max, a.closing, retry, offers);
      }
    }
  }

  lemma OnlyRetried(find: Messages.Lookup, wire: string, max: nat, closing: Closing, retry: bool, offers: seq<nat>)
    ensures ClientReceive(find, wire, max, closing, retry, offers).Reconnect? ==> retry
  {
    hide HeadEnd, Messages.ParsedResponse, LengthDecode, ClientDecode, CloseDecode, Less, Stoul;
  }

  /** A request starts again exactly if it may and was not written, or no header came to an end in what the
      buffer took; a connection that is not made ends it. */
  lemma ReconnectsIff(find: Messages.Lookup, a: Attempt, max: nat, retry: bool, offers: seq<nat>)
    ensures Attempted(find, a, max, retry, offers).Reconnect? <==>
            retry && (a.NotWritten? || (a.Answered? && var front := a.wire[..Min(max, |a.wire|)]; HeaderEnd.Open(front, |front|)))
    ensures a.NotConnected? || (a.NotWritten? && !retry) ==>
              Attempted(find, a, max, retry, offers) == Called([Delivery("", true, TransportError)], false)
  {
    hide HeaderEnd.EndsHeader, Messages.ParsedResponse, LengthDecode, ClientDecode, CloseDecode, Less, Stoul;
    if a.Answered? {
      OnlyRetried(find, a.wire, max, a.closing, retry, offers);
      NoHeadIff(a.wire[..Min(max, |a.wire|)]);
      hide HeadEnd;
    }
  }

  lemma NoHeadIff(s: string)
    ensures HeadEnd(s, 0) == None <==> HeaderEnd.Open(s, |s|)
  {
    if HeaderEnd.Open(s, |s|) {
      NoHeadEnd(s);
    }
    hide HeadEnd;
  }

  /** `connect`, `write` and `read` on one connection. */
  method Try(find: Messages.Lookup, a: Attempt, max: nat, retry: bool) returns (r: ClientReceived)
    ensures exists offers: seq<nat> :: r == Attempted(find, a, max, retry, offers)
  {
    hide ClientReceive;
    match a {
      case NotConnected =>
        r := Called([Delivery("", true, TransportError)], false);
        assert r == Attempted(find, a, max, retry, []);
      case NotWritten =>
        r := if retry then Reconnect else Called([Delivery("", true, TransportError)], false);
        assert r == Attempted(find, a, max, retry, []);
      case Answered(wire, closing) =>
        var session := new ClientSession(wire, max, closing, retry, find);
        r := session.Read();
        ghost var offers: seq<nat> :| r == ClientReceive(find, wire, max, closing, retry, offers);
        assert r == Attempted(find, a, max, retry, offers);
    }
  }

  /** `sync_request`: the promise holds the verdict on the calls and is settled once; or an exception
      leaves the handler, and with it the unguarded thread that runs the handlers, so that the process is
      `terminated`, the promise still open if all parts fitted. */
  method Request(find: Messages.Lookup, a: Attempt, again: Attempt, max: nat, retry: bool)
      returns (r: ClientReceived, promise: SyncRequest.Promise, settled: nat, terminated: bool)
    ensures exists offers: seq<nat>, offers': seq<nat> :: r == Exchange(find, a, again, max, retry, offers, offers')
    ensures !r.Reconnect?
    ensures terminated <==> r.Called? && r.aborted
    ensures r.Called? ==> promise == SyncRequest.Verdict("", r.calls, max)
    ensures r.Called? ==> settled == if terminated && |Content(r.calls)| <= max then 0 else 1
  {
    hide Attempted;
    r := Try(find, a, max, retry);
    ghost var offers: seq<nat> :| r == Attempted(find, a, max, retry, offers);
    ghost var offers': seq<nat> := [];
    AttemptSettles(find, a, max, retry, offers);
    if r.Reconnect? {
      r := Try(find, again, max, false);
      offers' :| r == Attempted(find, again, max, false, offers');
      AttemptSettles(find, again, max, false, offers');
    }
    assert r == Exchange(find, a, again, max, retry, offers, offers');
    hide Exchange;
    promise, settled, terminated := SyncRequest.Pending, 0, r.Called? && r.aborted;
    if r.Called? {
      SettlingCalls(r.calls, r.aborted, max);
      var request := new SyncRequest.SyncRequest(max);
      request.Deliver(r.calls);
      promise, settled := request.promise, request.settled;
    }
  }
}
