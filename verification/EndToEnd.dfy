/** A request from the client's `request` to the server's resource, and a response from the server's
    `write` to the caller of `sync_request`, for every splitting of the bytes into reads. */
module EndToEnd {
  import opened Wrappers
  import opened Text
  import opened QueryString
  import opened BodySpec
  import opened Messages
  import Headers
  import HeaderEnd
  import Heads
  import Receive
  import SyncRequest

  /** Head, content and what follows, cut where a buffer ends that reaches `ahead` bytes behind the head. */
  lemma Cut(head: string, content: string, more: string, ahead: nat)
    requires ahead <= |content + more|
    ensures var wire, e := head + content + more, |head|;
            && |wire| == e + |content + more| && wire[..e] == head && wire[e..] == content + more
            && wire[e..e + ahead] == (content + more)[..ahead]
            && wire[e + ahead..] == (content + more)[ahead..]
    ensures head + "" == head && "" + (content + more) == content + more && "" + (content + more)[..ahead] == (content + more)[..ahead]
  {
    assert head + content + more == head + (content + more);
  }

  lemma OkIsOneLine(fields: seq<Field>)
    requires Headers.AllOk(fields)
    ensures Headers.OneLineEach(fields)
  {
  }

  // ---------- requests ----------

  /** Where the head of a printed request ends, and what the server parses of it. */
  lemma RequestHeadIsSeen(sent: Lookup, c: Client, method_: string, path: string, fields: seq<Field>, content: string, more: string,
                          max: nat, e: nat)
    requires Plain(method_) && Plain(Target(c, path)) && Headers.AllOk(SentFields(sent, c, fields, content))
    requires e == |RequestText(sent, c, method_, path, fields, content)| - |content| && e <= max
    ensures var wire := RequestText(sent, c, method_, path, fields, content) + more;
            var (path', query) := SplitTarget(Target(c, path));
            && |wire| == e + |content + more| && wire[e..] == content + more
            && Heads.BlankEnd(wire[..Min(max, |wire|)]) == Some(e)
            && ParsedRequest(wire[..e]) == Some(Request(RequestHead(method_, path', query, "1.1"), SentFields(sent, c, fields, content), ""))
  {
    hide Heads.BlankEnd, ParsedRequest, SplitTarget, RequestText, HeadText, SentFields, Target, Headers.AllOk;
    var wire := RequestText(sent, c, method_, path, fields, content) + more;
    var head := HeadText(method_ + " " + Target(c, path) + " HTTP/1.1", SentFields(sent, c, fields, content));
    OkIsOneLine(SentFields(sent, c, fields, content));
    Heads.RequestHeadEnds(sent, c, method_, path, fields, content, more);
    Heads.BlankEndPrefix(wire[..Min(max, |wire|)], wire);
    RequestIsHeadAndContent(sent, c, method_, path, fields, content);
    Cut(head, content, more, 0);
    RequestHeadParses(method_, Target(c, path), SentFields(sent, c, fields, content), "");
  }

  /** A request with content, without a length of the caller's and without chunks, arrives as it was sent,
      with Host and the length added: method, target and fields, and the content byte for byte with nothing behind it consumed, exactly if no more than the
      content was read along with the head. Otherwise what was read along is taken for the content. */
  lemma RequestArrives(sent: Lookup, find: Lookup, c: Client, method_: string, path: string, fields: seq<Field>, content: string,
                       more: string, max: nat, offers: seq<nat>, e: nat, ahead: nat)
    requires Finds(sent) && Finds(find)
    requires Plain(method_) && Plain(Target(c, path))
    requires Headers.AllOk(fields) && '\n' !in c.host && (c.host == "" || c.host[0] != ' ')
    requires content != "" && Absent(fields, "Content-Length") && sent(fields, "Transfer-Encoding") != Some("chunked")
    requires |content| <= max < ULONG_LIMIT
    requires e == |RequestText(sent, c, method_, path, fields, content)| - |content| && e <= max
    requires ahead == Ahead(0, e, Min(max, e + |content + more|), offers)
    ensures var (path', query) := SplitTarget(Target(c, path));
            Receive.ServerReceive(find, RequestText(sent, c, method_, path, fields, content) + more, max, offers)
            == Receive.Head(RequestHead(method_, path', query, "1.1"),
                 [Field("Host", HostPort.HostValue(c.host, c.port, c.defaultPort))] + fields + [Field("Content-Length", ToDecimal(|content|))],
                 if ahead <= |content| then Complete(content, more)
                 else Complete((content + more)[..ahead], (content + more)[ahead..]))
  {
    AddedFieldsAreOk(sent, c, fields, content);
    LengthSentIff(sent, c, fields, content);
    AddedLengthIsRead(sent, find, c, fields, content);
    hide SentFields, RequestText, Target, SplitTarget, ParsedRequest, Receive.ServerReceive, Stoul, Absent, Finds, ServerContent, HostPort.HostValue;
    hide Heads.BlankEnd, Headers.AllOk, ToDecimal;
    RequestHeadIsSeen(sent, c, method_, path, fields, content, more, max, e);
    Receive.ServerReceives(find, RequestText(sent, c, method_, path, fields, content) + more, max, offers, e, ahead);
    SplitAt(RequestText(sent, c, method_, path, fields, content) + more, e, ahead, content + more);
    SplitContent(content, more, ahead, max);
  }

  /** Without content, what was read along with the head is handed over all the same: it is missing from
      the next request. */
  lemma EmptyRequestArrives(sent: Lookup, find: Lookup, c: Client, method_: string, path: string, fields: seq<Field>,
                            more: string, max: nat, offers: seq<nat>, e: nat, ahead: nat)
    requires Finds(sent) && Finds(find) && Plain(method_) && Plain(Target(c, path))
    requires Headers.AllOk(fields) && '\n' !in c.host && (c.host == "" || c.host[0] != ' ')
    requires Absent(fields, "Content-Length") && find(SentFields(sent, c, fields, ""), "Transfer-Encoding") != Some("chunked")
    requires e == |RequestText(sent, c, method_, path, fields, "")| <= max && ahead == Ahead(0, e, Min(max, e + |more|), offers)
    ensures var (path', query) := SplitTarget(Target(c, path));
            var wire := RequestText(sent, c, method_, path, fields, "") + more;
            && Receive.ServerReceive(find, wire, max, offers)
               == Receive.Head(RequestHead(method_, path', query, "1.1"),
                    [Field("Host", HostPort.HostValue(c.host, c.port, c.defaultPort))] + fields, Complete(more[..ahead], more[ahead..]))
            && Receive.Unread(find, wire, max, offers) == more[ahead..]
  {
    AddedFieldsAreOk(sent, c, fields, "");
    NothingIsAdded(sent, find, c, fields);
    LengthSentIff(sent, c, fields, "");
    assert SentFields(sent, c, fields, "") == [Field("Host", HostPort.HostValue(c.host, c.port, c.defaultPort))] + fields;
    hide SentFields, RequestText, Target, SplitTarget, ParsedRequest, Receive.ServerReceive, Receive.Unread, Finds, Absent;
    hide Heads.BlankEnd, Headers.AllOk, ServerUnread, ServerDecode;
    assert "" + more == more;
    RequestHeadIsSeen(sent, c, method_, path, fields, "", more, max, e);
    Receive.ServerReceives(find, RequestText(sent, c, method_, path, fields, "") + more, max, offers, e, ahead);
    SplitAt(RequestText(sent, c, method_, path, fields, "") + more, e, ahead, more);
  }

  lemma NothingIsAdded(sent: Lookup, find: Lookup, c: Client, fields: seq<Field>)
    requires Finds(find) && Absent(fields, "Content-Length")
    ensures find(SentFields(sent, c, fields, ""), "Content-Length") == None
  {
    hide Finds, Absent;
    var host := Field("Host", HostPort.HostValue(c.host, c.port, c.defaultPort));
    HostIsNoFraming(host, fields);
    assert SentFields(sent, c, fields, "") == [host] + fields + [] == [host] + fields;
    FindsOnly(find, [host] + fields, "Content-Length");
  }

  lemma SplitAt(wire: string, e: nat, ahead: nat, all: string)
    requires e + ahead <= |wire| && wire[e..] == all
    ensures "" + wire[e..e + ahead] == all[..ahead] && wire[e + ahead..] == all[ahead..]
  {
  }

  lemma SplitContent(content: string, more: string, ahead: nat, max: nat)
    requires |content| <= max && ahead <= |content + more| && ahead <= max
    ensures ServerContent((content + more)[..ahead], ahead, (content + more)[ahead..], |content|, max)
         == if ahead <= |content| then Complete(content, more) else Complete((content + more)[..ahead], (content + more)[ahead..])
  {
    var all := content + more;
    ServerContentDelivered(all[..ahead], ahead, all[ahead..], |content|, max);
    assert Behind(all[..ahead], ahead, all[ahead..]) == all;
    assert all[..|content|] == content && all[|content|..] == more;
  }

  /** When the connection ends within the head of a request, or the head is longer than the buffer, there is
      no request. */
  lemma RequestHeadFails(sent: Lookup, find: Lookup, c: Client, method_: string, path: string, fields: seq<Field>, content: string,
                         n: nat, max: nat, offers: seq<nat>, e: nat)
    requires Plain(method_) && Plain(Target(c, path)) && Headers.OneLineEach(SentFields(sent, c, fields, content))
    requires e == |RequestText(sent, c, method_, path, fields, content)| - |content| && n <= e + |content|
    requires n < e || max < e
    ensures Receive.ServerReceive(find, RequestText(sent, c, method_, path, fields, content)[..n], max, offers)
         == Receive.NoHead(if n < max then Lost else NotFound)
  {
    hide Heads.BlankEnd, ParsedRequest, RequestText, SentFields, Target, Receive.ServerBody;
    var text := RequestText(sent, c, method_, path, fields, content);
    Heads.RequestHeadEnds(sent, c, method_, path, fields, content, "");
    assert text + "" == text && text[..n][..Min(max, n)] == text[..Min(max, n)];
    Heads.BlankEndPrefix(text[..Min(max, n)], text);
  }

  /** A request whose content is sent in chunks arrives with the concatenated data, refused exactly if
      that exceeds the server's limit, and with what is behind the zero-size line left over, if each size
      line fits its buffer, as it does with up to 18 bytes; otherwise it does not arrive. */
  lemma ChunkedRequestArrives(sent: Lookup, find: Lookup, c: Client, method_: string, path: string, fields: seq<Field>,
                              cs: seq<Chunk>, zero: string, ext: string, rest: string, more: string, high: nat,
                              max: nat, offers: seq<nat>, e: nat, ahead: nat)
    requires Finds(sent) && Finds(find)
    requires Plain(method_) && Plain(Target(c, path))
    requires Headers.AllOk(fields) && '\n' !in c.host && (c.host == "" || c.host[0] != ' ')
    requires Absent(fields, "Content-Length") && Only(fields, "Transfer-Encoding", "chunked")
    requires WireOk(cs, zero, ext, high) && |Payload(cs)| < ULONG_LIMIT
    requires e == |RequestText(sent, c, method_, path, fields, Wire(cs, zero, ext, rest))| - |Wire(cs, zero, ext, rest)| && e <= max
    requires ahead == Ahead(0, e, Min(max, e + |Wire(cs, zero, ext, rest) + more|), offers)
    ensures var (path', query) := SplitTarget(Target(c, path));
            var got := Receive.ServerReceive(find, RequestText(sent, c, method_, path, fields, Wire(cs, zero, ext, rest)) + more, max, offers);
            && got.Head? && got.head == RequestHead(method_, path', query, "1.1")
            && got.fields == [Field("Host", HostPort.HostValue(c.host, c.port, c.defaultPort))] + fields
            && (WireOk(cs, zero, ext, Max(18, ahead)) ==>
                  got.body == if |Payload(cs)| <= max then Complete(Payload(cs), rest + more) else TooLarge)
            && (!WireOk(cs, zero, ext, Max(18, ahead)) && |Payload(cs)| <= max ==> got.body == NotFound)
  {
    var content := Wire(cs, zero, ext, rest);
    hide SentFields, RequestText, Target, SplitTarget, ParsedRequest, Receive.ServerReceive, Wire, WireOk, Payload, ChunkOk;
    hide Heads.BlankEnd, Headers.AllOk, Receive.InChunks, Finds, Absent, Only, Plain;
    AddedFieldsAreOk(sent, c, fields, content);
    ChunkedIsFound(sent, find, c, fields, content);
    RequestHeadIsSeen(sent, c, method_, path, fields, content, more, max, e);
    var (path', query) := SplitTarget(Target(c, path));
    ChunksBehindHead(find, RequestText(sent, c, method_, path, fields, content) + more, max, offers, e, ahead,
                     Request(RequestHead(method_, path', query, "1.1"), SentFields(sent, c, fields, content), ""),
                     cs, zero, ext, rest, more, high);
  }

  /** Chunks and more behind a head that parsing leaves nothing of. */
  lemma ChunksBehindHead(find: Lookup, wire: string, max: nat, offers: seq<nat>, e: nat, ahead: nat, r: Request,
                         cs: seq<Chunk>, zero: string, ext: string, rest: string, more: string, high: nat)
    requires Receive.RequestAt(find, wire, max, e, r) && r.rest == "" && ahead == Ahead(0, e, Min(max, |wire|), offers)
    requires wire[e..] == Wire(cs, zero, ext, rest) + more && WireOk(cs, zero, ext, high) && |Payload(cs)| < ULONG_LIMIT
    ensures var got := Receive.ServerReceive(find, wire, max, offers);
            && got.Head? && got.head == r.head && got.fields == r.fields
            && (WireOk(cs, zero, ext, Max(18, ahead)) ==>
                  got.body == if |Payload(cs)| <= max then Complete(Payload(cs), rest + more) else TooLarge)
            && (!WireOk(cs, zero, ext, Max(18, ahead)) && |Payload(cs)| <= max ==> got.body == NotFound)
  {
    hide ParsedRequest, Receive.ServerReceive, Wire, WireOk, Payload, Heads.BlankEnd, Receive.InChunks, Receive.ChunksFollow;
    ChunksAreThere(wire, e, cs, zero, ext, rest, more, high);
    Receive.ServerMessageIsWhole(find, wire, max, offers, e, ahead, r, cs, zero, ext, rest + more, high);
  }

  lemma ChunkedIsFound(sent: Lookup, find: Lookup, c: Client, fields: seq<Field>, content: string)
    requires Finds(sent) && Finds(find)
    requires Absent(fields, "Content-Length") && Only(fields, "Transfer-Encoding", "chunked")
    ensures Receive.InChunks(find, SentFields(sent, c, fields, content))
    ensures SentFields(sent, c, fields, content) == [Field("Host", HostPort.HostValue(c.host, c.port, c.defaultPort))] + fields
  {
    LengthSentIff(sent, c, fields, content);
    hide Finds, Absent, Only, Receive.InChunks, SentFields;
    FindsOnly(sent, fields, "Transfer-Encoding");
    var host := Field("Host", HostPort.HostValue(c.host, c.port, c.defaultPort));
    HostIsNoFraming(host, fields);
    assert SentFields(sent, c, fields, content) == [host] + fields + [] == [host] + fields;
    OnlyChunked(find, [host] + fields);
  }

  lemma {:induction false} WireAppends(cs: seq<Chunk>, zero: string, ext: string, rest: string, more: string)
    ensures Wire(cs, zero, ext, rest) + more == Wire(cs, zero, ext, rest + more)
    decreases cs
  {
    if cs == [] {
      assert zero + ext + CRLF + rest + more == zero + ext + CRLF + (rest + more);
    } else {
      WireAppends(cs[1..], zero, ext, rest, more);
      var front, tail := cs[0].size + cs[0].ext + CRLF, Wire(cs[1..], zero, ext, rest);
      assert front + (cs[0].data + CRLF + tail) + more == front + (cs[0].data + CRLF + (tail + more));
    }
  }

  // ---------- responses ----------

  /** Where the client finds the end of a printed head, and what it parses of it. */
  lemma ResponseHeadIsSeen(text: string, status: string, answered: seq<Field>, content: string, more: string, max: nat, e: nat)
    requires text == HeadText("HTTP/1.1 " + status, answered) + content && e == |text| - |content| <= max
    requires '\n' !in status && Headers.AllOk(answered)
    requires var last := Heads.LastText("HTTP/1.1 " + status, answered); HeaderEnd.CrRun(last, |last|) % 2 == 0
    ensures var wire := text + more;
            && |wire| == e + |content + more| && wire[e..] == content + more
            && Receive.HeadEnd(wire[..Min(max, |wire|)], 0) == Some(e)
            && ParsedResponse(wire[..e]) == Some(Response("1.1", status, answered, ""))
  {
    hide ParsedResponse, HeadText, Receive.HeadEnd, HeaderEnd.IsFirstEnd, HeaderEnd.CrRun, Heads.LastText, Headers.AllOk;
    OkIsOneLine(answered);
    var wire := text + more;
    Cut(HeadText("HTTP/1.1 " + status, answered), content, more, 0);
    assert wire == HeadText("HTTP/1.1 " + status, answered) + (content + more);
    Heads.HeadTextEnds("HTTP/1.1 " + status, answered, content + more);
    Receive.HeadEndUnique(wire, e);
    Receive.HeadEndPrefix(wire[..Min(max, |wire|)], wire);
    ResponseHeadParses(status, answered, "");
  }

  /** The last line of a head whose length the server added is that length: no `\r` ends it. */
  lemma AddedLengthIsLast(status: string, fields: seq<Field>, size: nat)
    requires !HasLength(fields) && !IsChunked(fields)
    ensures var last := Heads.LastText("HTTP/1.1 " + status, AnsweredFields(fields, size, false));
            HeaderEnd.CrRun(last, |last|) == 0
  {
    hide ToDecimal;
    var answered := AnsweredFields(fields, size, false);
    assert answered[|answered| - 1] == Field("Content-Length", ToDecimal(size));
    var text := "Content-Length" + ": " + ToDecimal(size);
    assert IsDigit(text[|text| - 1], 10) by {
      assert text[|text| - 1] == ToDecimal(size)[|ToDecimal(size)| - 1];
    }
  }

  /** A response with a length added by the server reaches the caller of a synchronous request whole,
      exactly if it fits the response buffer, when no more than it was read along with the head. */
  lemma ResponseArrives(find: Lookup, text: string, status: string, fields: seq<Field>, content: string, more: string,
                        max: nat, closing: Closing, retry: bool, offers: seq<nat>, e: nat, ahead: nat)
    requires Finds(find)
    requires '\n' !in status && Headers.AllOk(fields) && Absent(fields, "Content-Length") && !IsChunked(fields)
    requires text == ResponseText(status, fields, content, false) && |content| < ULONG_LIMIT
    requires e == |text| - |content| <= max && ahead == Ahead(0, e, Min(max, e + |content + more|), offers)
    ensures Receive.Answer(find, text + more, max, closing, retry, offers)
         == if ahead > |content| then SyncRequest.Fulfilled((content + more)[..ahead])
            else if |content| <= max then SyncRequest.Fulfilled(content)
            else SyncRequest.Failed(SyncRequest.MessageSize)
  {
    HasLengthIff(fields);
    LengthFieldIsOk(fields, |content|, false);
    ResponseIsHeadAndContent(status, fields, content, false);
    AnsweredLengthIsRead(find, fields, |content|);
    AddedLengthIsLast(status, fields, |content|);
    hide ResponseText, AnsweredFields, HeadText, ParsedResponse, Stoul, ToDecimal, HasLength, IsChunked, Absent, Headers.AllOk, Finds;
    hide HeaderEnd.CrRun, Heads.LastText, Receive.HeadEnd, Receive.ClientReceive, LengthDecode, SyncRequest.Verdict;
    ResponseHeadIsSeen(text, status, AnsweredFields(fields, |content|, false), content, more, max, e);
    Receive.ClientReceives(find, text + more, max, closing, retry, offers, e, ahead);
    SplitAt(text + more, e, ahead, content + more);
    ContentVerdict(content, more, ahead, max);
  }

  lemma ContentVerdict(content: string, more: string, ahead: nat, max: nat)
    requires ahead <= |content + more| && ahead <= max && 0 < max
    ensures var (calls, _) := LengthDecode((content + more)[..ahead], ahead, (content + more)[ahead..], |content|, max);
            && (ahead <= |content| ==>
                  SyncRequest.Verdict("", calls, max)
                  == if |content| <= max then SyncRequest.Fulfilled(content) else SyncRequest.Failed(SyncRequest.MessageSize))
            && (ahead > |content| ==> SyncRequest.Verdict("", calls, max) == SyncRequest.Fulfilled((content + more)[..ahead]))
  {
    var all := content + more;
    LengthDelivered(all[..ahead], ahead, all[ahead..], |content|, max);
    assert Behind(all[..ahead], ahead, all[ahead..]) == all;
    assert all[..|content|] == content;
    hide Delivered, ContentDecode;
    var calls := LengthDecode(all[..ahead], ahead, all[ahead..], |content|, max).0;
    SyncRequest.WholeBodyIffItFits(calls, "", max);
    assert "" + Content(calls) == Content(calls);
    if ahead > |content| {
      OneDelivery(all[..ahead], max, NoError);
    }
  }

  /** A response that closes the connection has no length. With a field `Connection: close` it reaches
      the caller whole when the connection ends, exactly if it fits, together with whatever follows it;
      without one, only what was read along with the head does. */
  lemma ClosingResponseArrives(find: Lookup, text: string, status: string, fields: seq<Field>, content: string, more: string,
                               max: nat, closing: Closing, retry: bool, offers: seq<nat>, e: nat, ahead: nat)
    requires Finds(find) && '\n' !in status && Headers.AllOk(fields)
    requires Absent(fields, "Content-Length") && find(fields, "Transfer-Encoding") != Some("chunked")
    requires text == ResponseText(status, fields, content, true) && e == |text| - |content| <= max
    requires var last := Heads.LastText("HTTP/1.1 " + status, fields); HeaderEnd.CrRun(last, |last|) % 2 == 0
    requires ahead == Ahead(0, e, Min(max, e + |content + more|), offers)
    ensures var answer, all := Receive.Answer(find, text + more, max, closing, retry, offers), content + more;
            if find(fields, "Connection") == Some("close") then
              && (closing == EndOfFile ==> answer == if |all| <= max then SyncRequest.Fulfilled(all) else SyncRequest.Failed(SyncRequest.MessageSize))
              && (closing == Broken && |all| <= max ==> answer == SyncRequest.Failed(SyncRequest.Received(TransportError)))
            else find(fields, "Content-Type") != Some("text/event-stream") ==>
              answer == SyncRequest.Fulfilled(all[..ahead]) && (all[..ahead] == content <==> ahead == |content|)
  {
    NoLengthAdded(fields, |content|);
    ResponseIsHeadAndContent(status, fields, content, true);
    FindsOnly(find, fields, "Content-Length");
    hide ResponseText, AnsweredFields, HeadText, ParsedResponse, Headers.AllOk, Finds, Absent;
    hide HeaderEnd.CrRun, Heads.LastText, Receive.HeadEnd, Receive.ClientReceive, Receive.ClientBody, CloseDecode, SyncRequest.Verdict;
    var wire, all := text + more, content + more;
    ResponseHeadIsSeen(text, status, fields, content, more, max, e);
    Receive.ClientReceives(find, wire, max, closing, retry, offers, e, ahead);
    SplitAt(wire, e, ahead, all);
    Receive.CallsWithoutLength(find, "1.1", fields, all[..ahead], ahead, all[ahead..], max, closing, Later(offers));
    if find(fields, "Connection") == Some("close") {
      ClosingVerdict(all, ahead, max, closing);
    } else {
      OneCallVerdict(all[..ahead], max);
      assert ahead == |content| ==> all[..ahead] == content;
    }
  }

  lemma NoLengthAdded(fields: seq<Field>, size: nat)
    ensures AnsweredFields(fields, size, true) == fields
  {
  }

  lemma ClosingVerdict(all: string, ahead: nat, max: nat, closing: Closing)
    requires ahead <= |all| && ahead <= max && 0 < max
    ensures var verdict := SyncRequest.Verdict("", CloseDecode(all[ahead..], all[..ahead], max, closing), max);
            && (closing == EndOfFile ==> verdict == if |all| <= max then SyncRequest.Fulfilled(all) else SyncRequest.Failed(SyncRequest.MessageSize))
            && (closing == Broken && |all| <= max ==> verdict == SyncRequest.Failed(SyncRequest.Received(TransportError)))
  {
    hide CloseDecode, Delivered, Content;
    CloseDelivered(all[ahead..], all[..ahead], max, closing);
    assert all[..ahead] + all[ahead..] == all;
    Receive.DeliveredVerdict(CloseDecode(all[ahead..], all[..ahead], max, closing), max, closing == EndOfFile, all);
  }

  lemma OneCallVerdict(content: string, max: nat)
    requires |content| <= max
    ensures SyncRequest.Verdict("", [Delivery(content, true, NoError)], max) == SyncRequest.Fulfilled(content)
  {
    assert "" + content == content;
  }

  /** A response whose content is sent in chunks that fit reaches the caller whole, exactly if it fits the
      response buffer, if each size line fits its buffer; otherwise the request fails. The text of the last
      line of the head is to end in an even number of `\r`, else the client does not find its end. */
  lemma ChunkedResponseArrives(find: Lookup, text: string, status: string, answered: seq<Field>, close: bool,
                               cs: seq<Chunk>, zero: string, ext: string, rest: string, more: string, high: nat,
                               max: nat, closing: Closing, retry: bool, offers: seq<nat>, e: nat, ahead: nat)
    requires Finds(find) && '\n' !in status && Headers.AllOk(answered)
    requires Absent(answered, "Content-Length") && Only(answered, "Transfer-Encoding", "chunked")
    requires WireOk(cs, zero, ext, high) && |Payload(cs)| < ULONG_LIMIT && forall i :: 0 <= i < |cs| ==> |cs[i].data| <= max
    requires text == ResponseText(status, answered, Wire(cs, zero, ext, rest), close)
    requires e == |text| - |Wire(cs, zero, ext, rest)| <= max
    requires var last := Heads.LastText("HTTP/1.1 " + status, answered); HeaderEnd.CrRun(last, |last|) % 2 == 0
    requires ahead == Ahead(0, e, Min(max, e + |Wire(cs, zero, ext, rest) + more|), offers)
    ensures var answer := Receive.Answer(find, text + more, max, closing, retry, offers);
            && (WireOk(cs, zero, ext, Max(18, ahead)) ==>
                  answer == if |Payload(cs)| <= max then SyncRequest.Fulfilled(Payload(cs)) else SyncRequest.Failed(SyncRequest.MessageSize))
            && (!WireOk(cs, zero, ext, Max(18, ahead)) && |Payload(cs)| <= max ==>
                  answer == SyncRequest.Failed(SyncRequest.Received(TransportError)))
  {
    hide HeadText, ParsedResponse, Headers.AllOk, Finds, Absent, Only, Receive.InChunks, Wire, WireOk, Payload, ChunkOk;
    hide HeaderEnd.CrRun, Heads.LastText, Receive.HeadEnd, Receive.Answer, ResponseText;
    OnlyChunked(find, answered);
    ChunkedHasNoLength(answered, |Wire(cs, zero, ext, rest)|, close);
    ResponseIsHeadAndContent(status, answered, Wire(cs, zero, ext, rest), close);
    ResponseHeadIsSeen(text, status, answered, Wire(cs, zero, ext, rest), more, max, e);
    AnswerBehindHead(find, text + more, max, closing, retry, offers, e, ahead, Response("1.1", status, answered, ""),
                     cs, zero, ext, rest, more, high);
  }

  /** Nothing is added to the fields of a response in chunks. */
  lemma ChunkedHasNoLength(fields: seq<Field>, size: nat, close: bool)
    requires Only(fields, "Transfer-Encoding", "chunked")
    ensures AnsweredFields(fields, size, close) == fields
  {
    LengthAnsweredIff(fields, size, close);
    NameIsItself("chunked");
    var f :| f in fields && CaseInsensitiveEqual(f.name, "Transfer-Encoding");
    assert f.value == "chunked" && IsChunked(fields);
  }

  /** When the connection ends within the head of a response, or the head is longer than the buffer, the
      request fails, or starts again where that is allowed. */
  lemma ResponseHeadFails(find: Lookup, text: string, status: string, answered: seq<Field>, n: nat, max: nat,
                          closing: Closing, retry: bool, offers: seq<nat>)
    requires '\n' !in status && Headers.OneLineEach(answered) && text == HeadText("HTTP/1.1 " + status, answered)
    requires n < |text| || (n == |text| && max < |text|)
    ensures Receive.ClientReceive(find, text[..n], max, closing, retry, offers)
         == if retry then Receive.Reconnect else Receive.Called([Delivery(text[..Min(max, n)], true, TransportError)], false)
  {
    Heads.HeadTextEnds("HTTP/1.1 " + status, answered, "");
    assert text + "" == text && text[..n][..Min(max, n)] == text[..Min(max, n)];
    var front := text[..Min(max, n)];
    hide HeadText, HeaderEnd.CrRun, Heads.LastText, ParsedResponse, Receive.ClientBody, Receive.HeadEnd;
    if HeaderEnd.IsFirstEnd(text, |text|) {
      hide HeaderEnd.IsFirstEnd, HeaderEnd.Open;
      Receive.HeadEndUnique(text, |text|);
      Receive.HeadEndPrefix(front, text);
    } else {
      hide HeaderEnd.IsFirstEnd;
      OpenFront(text, front);
      hide HeaderEnd.Open;
      Receive.NoHeadEnd(front);
    }
  }

  lemma OpenFront(s: string, front: string)
    requires front <= s && HeaderEnd.Open(s, |s|)
    ensures HeaderEnd.Open(front, |front|)
  {
    HeaderEnd.OpenPrefix(front, s, |front|);
  }

  lemma OnlyChunked(find: Lookup, fields: seq<Field>)
    requires Finds(find) && Absent(fields, "Content-Length") && Only(fields, "Transfer-Encoding", "chunked")
    ensures Receive.InChunks(find, fields)
  {
    hide Finds, Absent, Only;
    FindsOnly(find, fields, "Content-Length");
    FindsOnly(find, fields, "Transfer-Encoding");
  }

  lemma AnswerBehindHead(find: Lookup, wire: string, max: nat, closing: Closing, retry: bool, offers: seq<nat>, e: nat, ahead: nat,
                         r: Response, cs: seq<Chunk>, zero: string, ext: string, rest: string, more: string, high: nat)
    requires Receive.ResponseAt(find, wire, max, e, r) && r.rest == "" && ahead == Ahead(0, e, Min(max, |wire|), offers)
    requires wire[e..] == Wire(cs, zero, ext, rest) + more && WireOk(cs, zero, ext, high) && |Payload(cs)| < ULONG_LIMIT
    requires forall i :: 0 <= i < |cs| ==> |cs[i].data| <= max
    ensures var answer := Receive.Answer(find, wire, max, closing, retry, offers);
            && (WireOk(cs, zero, ext, Max(18, ahead)) ==>
                  answer == if |Payload(cs)| <= max then SyncRequest.Fulfilled(Payload(cs)) else SyncRequest.Failed(SyncRequest.MessageSize))
            && (!WireOk(cs, zero, ext, Max(18, ahead)) && |Payload(cs)| <= max ==>
                  answer == SyncRequest.Failed(SyncRequest.Received(TransportError)))
  {
    hide ParsedResponse, Receive.InChunks, Receive.ChunksFollow, Wire, WireOk, Payload, Receive.HeadEnd, Receive.ClientReceive;
    hide Delivered, Content, SyncRequest.Verdict;
    ChunksAreThere(wire, e, cs, zero, ext, rest, more, high);
    Receive.ClientMessageIsWhole(find, wire, max, closing, retry, offers, e, ahead, r, cs, zero, ext, rest + more, high);
    Receive.DeliveredVerdict(Receive.ClientReceive(find, wire, max, closing, retry, offers).calls, max,
                             WireOk(cs, zero, ext, Max(18, ahead)), Payload(cs));
  }

  /** A printed response after which an exception leaves the client's handler, if three bytes are read
      ahead of its second chunk. */
  lemma WrappedSizeArrives(find: Lookup, text: string, status: string, answered: seq<Field>, stream: string,
                           size: string, data: string, tail: string, max: nat, closing: Closing, retry: bool)
    requires Finds(find) && '\n' !in status && Headers.AllOk(answered)
    requires Absent(answered, "Content-Length") && Only(answered, "Transfer-Encoding", "chunked")
    requires var last := Heads.LastText("HTTP/1.1 " + status, answered); HeaderEnd.CrRun(last, |last|) % 2 == 0
    requires text == HeadText("HTTP/1.1 " + status, answered) && |text| <= max && Wrapping(stream, size, data, tail, 18, max)
    ensures Receive.ClientReceive(find, text + stream, max, closing, retry, [0, 0, 3]) == Receive.Called([], true)
    ensures Receive.ClientReceive(find, text + stream, max, closing, retry, [0, 0, 0])
         == Receive.Called([Delivery(data + tail[..2], true, TransportError)], false)
  {
    hide HeadText, ParsedResponse, Headers.AllOk, Finds, Absent, Only, Receive.InChunks, Receive.ClientReceive, Wrapping;
    hide HeaderEnd.CrRun, Heads.LastText, Receive.HeadEnd;
    OnlyChunked(find, answered);
    var wire, r := text + stream, Response("1.1", status, answered, "");
    assert wire + "" == wire && stream + "" == stream;
    ResponseHeadIsSeen(wire, status, answered, stream, "", max, |text|);
    Receive.ClientDependsOnReads(find, wire, max, closing, retry, |text|, r, size, data, tail);
  }

  lemma ChunksAreThere(wire: string, e: nat, cs: seq<Chunk>, zero: string, ext: string, rest: string, more: string, high: nat)
    requires e <= |wire| && wire[e..] == Wire(cs, zero, ext, rest) + more && WireOk(cs, zero, ext, high) && |Payload(cs)| < ULONG_LIMIT
    ensures Receive.ChunksFollow(wire, e, "", cs, zero, ext, rest + more, high)
  {
    hide Wire, WireOk, Payload;
    WireAppends(cs, zero, ext, rest, more);
    assert "" + wire[e..] == wire[e..];
  }

  // ---------- a line without a colon ----------

  /** A request head: two lines, one without a colon, and one more. */
  function ColonlessHead(line: string, field: string, plain: string, last: string): string {
    line + (CRLF + (field + (CRLF + (plain + (CRLF + (last + (CRLF + CRLF)))))))
  }

  lemma TextIsNoCrlf(text: string, after: string)
    requires text != "" && '\n' !in text
    ensures !Heads.StartsCrlf(text + (CRLF + after))
  {
    var s := text + (CRLF + after);
    assert |text| > 1 ==> s[1] == text[1] && text[1] in text;
    assert |text| == 1 ==> s[1] == '\r';
  }

  lemma ColonlessHeadEnds(line: string, field: string, plain: string, last: string, stream: string)
    requires '\n' !in line && '\n' !in field && '\n' !in plain && '\n' !in last
    requires field != "" && plain != "" && last != ""
    ensures Heads.BlankEnd(ColonlessHead(line, field, plain, last) + stream) == Some(|ColonlessHead(line, field, plain, last)|)
  {
    hide Heads.BlankEnd;
    var rest3 := CRLF + stream;
    var rest2 := last + (CRLF + rest3);
    var rest1 := plain + (CRLF + rest2);
    var rest0 := field + (CRLF + rest1);
    assert Heads.StartsCrlf(rest3);
    Heads.BlankEndSkips(last, rest3);
    TextIsNoCrlf(last, rest3);
    Heads.BlankEndSkips(plain, rest2);
    TextIsNoCrlf(plain, rest2);
    Heads.BlankEndSkips(field, rest1);
    TextIsNoCrlf(field, rest1);
    Heads.BlankEndSkips(line, rest0);
    assert ColonlessHead(line, field, plain, last) + stream == line + (CRLF + rest0);
  }

  /** The header ends at the line without a colon, and what follows that line is left. */
  lemma ColonlessHeadParses(line: string, head: RequestHead, f: Field, plain: string, last: string)
    requires '\n' !in line && RequestLine(line + "\r") == Some(head) && Headers.FieldOk(f)
    requires '\n' !in plain && ':' !in plain
    ensures ParsedRequest(ColonlessHead(line, f.name + ": " + f.value, plain, last)) == Some(Request(head, [f], last + (CRLF + CRLF)))
  {
    hide RequestLine, Headers.Header, Headers.Stripped;
    var left := last + (CRLF + CRLF);
    var behind := (plain + "\r") + "\n" + left;
    var after := Headers.FieldLine(f) + behind;
    assert ColonlessHead(line, f.name + ": " + f.value, plain, last) == (line + "\r") + "\n" + after;
    GetLineOf(line + "\r", after);
    Headers.HeaderStep(f, behind);
    Headers.StrippedIsIdentity(f.value);
    PlainLineEnds(plain, left);
    assert [f] + [] == [f];
  }

  lemma PlainLineEnds(plain: string, left: string)
    requires '\n' !in plain && ':' !in plain
    ensures Headers.Header((plain + "\r") + "\n" + left) == ([], left)
  {
    GetLineOf(plain + "\r", left);
    FindNone(plain + "\r", ':');
  }

  /** What parsing left of the head goes in front of the content, which is counted without it. */
  lemma LeftoverIsHandedOver(find: Lookup, head: string, stream: string, h: RequestHead, f: Field, left: string, n: nat, max: nat)
    requires Heads.BlankEnd(head + stream) == Some(|head|) && ParsedRequest(head) == Some(Request(h, [f], left))
    requires find([f], "Content-Length") == Some(f.value) && Stoul(f.value, 10) == Some(n)
    requires 0 < n <= |stream| && |left| + n <= max && |head| <= max
    ensures Receive.ServerReceive(find, head + stream, max, [0]) == Receive.Head(h, [f], Complete(left + stream[..n], stream[n..]))
  {
    hide Heads.BlankEnd, ParsedRequest, Stoul;
    var wire := head + stream;
    Heads.BlankEndPrefix(wire[..Min(max, |wire|)], wire);
    assert wire[..|head|] == head && wire[|head|..] == stream;
  }

  lemma NumberIsRead(find: Lookup, f: Field, n: nat)
    requires Finds(find) && f == Field("Content-Length", ToDecimal(n)) && n < ULONG_LIMIT
    ensures Headers.FieldOk(f) && find([f], "Content-Length") == Some(f.value) && Stoul(f.value, 10) == Some(n)
  {
    hide ToDecimal, Stoul, Headers.FieldOk;
    NumberFieldIsOk(n);
    DecimalRoundTrip(n);
    NameIsItself(f.name);
    assert f in [f];
    FindsOnly(find, [f], "Content-Length");
  }

  lemma NoQuery(target: string)
    requires '?' !in target
    ensures SplitTarget(target) == (target, "")
  {
    FindLastIsLast(target, '?');
  }

  /** A header line without a colon ends the parser's header early. What follows it in the head is left
      in the buffer although nothing was read behind the head, and is handed over in front of the `n`
      bytes of content. */
  lemma ColonlessLine(find: Lookup, head: string, line: string, h: RequestHead, f: Field, plain: string, last: string, left: string,
                      stream: string, n: nat, max: nat)
    requires Finds(find) && '\n' !in line && RequestLine(line + "\r") == Some(h) && f == Field("Content-Length", ToDecimal(n))
    requires '\n' !in plain && ':' !in plain && plain != "" && '\n' !in last && last != ""
    requires head == ColonlessHead(line, f.name + ": " + f.value, plain, last) && left == last + (CRLF + CRLF)
    requires 0 < n <= |stream| && |head| + n <= max < ULONG_LIMIT
    ensures Receive.ServerReceive(find, head + stream, max, [0]) == Receive.Head(h, [f], Complete(left + stream[..n], stream[n..]))
  {
    NumberIsRead(find, f, n);
    var field := f.name + ": " + f.value;
    assert Headers.NameOk(f.name) && '\n' !in f.value && '\n' !in field;
    assert |head| >= |left|;
    hide ColonlessHead, Heads.BlankEnd, ParsedRequest, Finds, Stoul, Receive.ServerReceive, RequestLine, ToDecimal, Headers.FieldOk;
    ColonlessHeadEnds(line, field, plain, last, stream);
    ColonlessHeadParses(line, h, f, plain, last);
    LeftoverIsHandedOver(find, head, stream, h, f, left, n, max);
  }

  /** For example: behind `POST / HTTP/1.1`, `Content-Length: 20`, `foo`, `b: y` and the empty line
      the server hands over 28 bytes. */
  lemma ColonlessExample(find: Lookup, head: string, left: string, stream: string, max: nat)
    requires Finds(find) && head == ColonlessHead("POST" + " " + "/" + " HTTP/1.1", "Content-Length" + ": " + ToDecimal(20), "foo", "b: y")
    requires left == "b: y" + (CRLF + CRLF) && 20 <= |stream| && |head| + 20 <= max < ULONG_LIMIT
    ensures |left + stream[..20]| == 28
    ensures Receive.ServerReceive(find, head + stream, max, [0])
         == Receive.Head(RequestHead("POST", "/", "", "1.1"), [Field("Content-Length", ToDecimal(20))], Complete(left + stream[..20], stream[20..]))
  {
    RequestLineParses("POST", "/");
    NoQuery("/");
    hide RequestLine, ToDecimal, ColonlessHead, Receive.ServerReceive;
    ColonlessLine(find, head, "POST" + " " + "/" + " HTTP/1.1", RequestHead("POST", "/", "", "1.1"),
                  Field("Content-Length", ToDecimal(20)), "foo", "b: y", left, stream, 20, max);
  }
}
