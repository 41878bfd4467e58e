/** Heads of requests and responses: what one side prints and the other parses, sections 3.1 and 3.2
    of RFC 7230. */
module Messages {
  import opened Wrappers
  import opened Text
  import opened QueryString
  import Headers
  import HostPort

  // ---------- field look-up ----------

  function Lower(c: char): char {
    if 'A' <= c <= 'Z' then c - 'A' + 'a' else c
  }

  predicate CaseInsensitiveEqual(s: string, t: string) {
    |s| == |t| && forall i :: 0 <= i < |s| ==> Lower(s[i]) == Lower(t[i])
  }

  /** Upper-case letters, and only they, count as their lower-case ones. */
  lemma LowerIff(c: char)
    ensures c !in UPPER_LETTERS ==> Lower(c) == c
    ensures forall i :: 0 <= i < 26 && c == UPPER_LETTERS[i] ==> Lower(c) == LOWER_LETTERS[i]
  {
    UpperIff(c);
    forall i | 0 <= i < 26 && c == UPPER_LETTERS[i] ensures Lower(c) == LOWER_LETTERS[i] {
      UpperAt(i);
      LowerAt(i);
    }
  }

  /** `header.find(name)`: the value of a field of that name. Which one, of several, the container
      leaves open; theorems hold for every function that `Finds`. */
  type Lookup = (seq<Field>, string) -> Option<string>

  ghost predicate Found(fields: seq<Field>, name: string, r: Option<string>) {
    match r
    case None => Absent(fields, name)
    case Some(value) => exists f :: f in fields && CaseInsensitiveEqual(f.name, name) && f.value == value
  }

  ghost predicate Finds(find: Lookup) {
    forall fields, name :: Found(fields, name, find(fields, name))
  }

  ghost predicate Absent(fields: seq<Field>, name: string) {
    forall f :: f in fields ==> !CaseInsensitiveEqual(f.name, name)
  }

  /** There are fields of that name, all with the same value. */
  ghost predicate Only(fields: seq<Field>, name: string, value: string) {
    && (exists f :: f in fields && CaseInsensitiveEqual(f.name, name))
    && (forall f :: f in fields && CaseInsensitiveEqual(f.name, name) ==> f.value == value)
  }

  lemma FindsOnly(find: Lookup, fields: seq<Field>, name: string)
    requires Finds(find)
    ensures find(fields, name) == None <==> Absent(fields, name)
    ensures forall v :: Only(fields, name, v) ==> find(fields, name) == Some(v)
  {
    hide CaseInsensitiveEqual;
    assert Found(fields, name, find(fields, name));
  }

  /** One such function: the first field of the name. */
  function FirstField(fields: seq<Field>, name: string): Option<string> {
    if fields == [] then None
    else if CaseInsensitiveEqual(fields[0].name, name) then Some(fields[0].value)
    else FirstField(fields[1..], name)
  }

  lemma {:induction false} FirstIsFound(fields: seq<Field>, name: string)
    ensures Found(fields, name, FirstField(fields, name))
  {
    hide CaseInsensitiveEqual;
    if fields != [] && !CaseInsensitiveEqual(fields[0].name, name) {
      FirstIsFound(fields[1..], name);
      assert fields == [fields[0]] + fields[1..];
      assert forall f :: f in fields ==> f == fields[0] || f in fields[1..];
    }
  }

  lemma FirstFinds()
    ensures Finds(FirstField)
  {
    hide FirstField, Found;
    forall fields, name ensures Found(fields, name, FirstField(fields, name)) {
      FirstIsFound(fields, name);
    }
  }

  /** Another, that finds `f` where it is asked for its name. */
  function Preferring(all: seq<Field>, f: Field, fields: seq<Field>, name: string): Option<string> {
    if fields == all && CaseInsensitiveEqual(f.name, name) then Some(f.value) else FirstField(fields, name)
  }

  lemma PreferringFinds(all: seq<Field>, f: Field) returns (find: Lookup)
    requires f in all
    ensures Finds(find)
    ensures forall name :: CaseInsensitiveEqual(f.name, name) ==> find(all, name) == Some(f.value)
  {
    hide CaseInsensitiveEqual, FirstField;
    find := (fields, name) => Preferring(all, f, fields, name);
    forall fields, name ensures Found(fields, name, find(fields, name)) {
      FirstIsFound(fields, name);
    }
  }

  ghost predicate Agree(find: Lookup, other: Lookup, fields: seq<Field>, name: string) {
    find(fields, name) == other(fields, name)
  }

  /** What is found does not depend on the container if and only if no field of the name is there or all
      of them have one value. */
  lemma FoundAlikeIff(fields: seq<Field>, name: string)
    ensures (forall find: Lookup, other: Lookup :: Finds(find) && Finds(other) ==> Agree(find, other, fields, name))
       <==> Absent(fields, name) || exists v :: Only(fields, name, v)
  {
    hide CaseInsensitiveEqual;
    if Absent(fields, name) || exists v :: Only(fields, name, v) {
      forall find: Lookup, other: Lookup | Finds(find) && Finds(other) ensures Agree(find, other, fields, name) {
        FindsOnly(find, fields, name);
        FindsOnly(other, fields, name);
      }
    } else {
      var f :| f in fields && CaseInsensitiveEqual(f.name, name);
      assert !Only(fields, name, f.value);
      var g :| g in fields && CaseInsensitiveEqual(g.name, name) && g.value != f.value;
      var find := PreferringFinds(fields, f);
      var other := PreferringFinds(fields, g);
      assert !Agree(find, other, fields, name);
    }
  }

  // ---------- the request line ----------

  datatype RequestHead = RequestHead(method_: string, path: string, query: string, version: string)

  /** Method up to the first space; target up to the second, divided at its last `?`; then `HTTP/` and
      the version without the last character of the line. */
  function RequestLine(line: string): Option<RequestHead> {
    match Find(line, ' ')
    case None => None
    case Some(methodEnd) =>
      var tail := line[methodEnd + 1..];
      match Find(tail, ' ')
      case None => None
      case Some(targetEnd) =>
        var protocol := tail[targetEnd + 1..];
        match Find(protocol, '/')
        case None => None
        case Some(k) =>
          if protocol[..k] != "HTTP" then None
          else
            var (path, query) := SplitTarget(tail[..targetEnd]);
            Some(RequestHead(line[..methodEnd], path, query, DropLast(protocol[k + 1..])))
  }

  function SplitTarget(target: string): (string, string) {
    match FindLast(target, '?')
    case None => (target, "")
    case Some(k) => (target[..k], target[k + 1..])
  }

  function DropLast(s: string): string {
    if s == "" then "" else s[..|s| - 1]
  }

  /** The scan for the end of the target: `queryStart` is the position behind the last `?` passed. */
  method ScanTarget(line: string, start: nat) returns (queryStart: Option<nat>, end: Option<nat>)
    requires start <= |line|
    ensures match Find(line[start..], ' ')
            case None => end == None
            case Some(k) =>
              end == Some(start + k)
              && queryStart == match FindLast(line[start..start + k], '?')
                               case None => None
                               case Some(q) => Some(start + q + 1)
  {
    hide Find, FindLast;
    queryStart, end := None, None;
    assert line[start..start] == "";
    FindLastOfNone('?');
    var i := start;
    while i < |line|
      invariant start <= i <= |line| && ' ' !in line[start..i]
      invariant match FindLast(line[start..i], '?')
                case None => queryStart == None
                case Some(q) => queryStart == Some(start + q + 1) || start + q + 1 == |line|
      decreases |line| - i
    {
      assert line[start..i + 1] == line[start..i] + [line[i]];
      FindLastStep(line[start..i], '?', line[i]);
      if line[i] == '?' && i + 1 < |line| {
        queryStart := Some(i + 1);
      } else if line[i] == ' ' {
        end := Some(i);
        FindAfter(line[start..i], ' ', line[i + 1..]);
        assert line[start..] == line[start..i] + [' '] + line[i + 1..];
        return;
      }
      i := i + 1;
    }
    assert line[start..i] == line[start..];
    FindNone(line[start..], ' ');
  }

  /** Every line of that form is a request line, whatever the version; its last character is cut off. */
  lemma RequestLineMeaning(method_: string, target: string, version: string, last: char)
    requires ' ' !in method_ && ' ' !in target
    ensures RequestLine(method_ + [' '] + (target + [' '] + ("HTTP" + ['/'] + (version + [last]))))
         == Some(RequestHead(method_, SplitTarget(target).0, SplitTarget(target).1, version))
    ensures RequestLine(method_ + [' '] + (target + [' '] + ("HTTP" + ['/'] + "")))
         == Some(RequestHead(method_, SplitTarget(target).0, SplitTarget(target).1, ""))
  {
    hide SplitTarget, Find, RequestLine;
    forall end: string
      ensures RequestLine(method_ + [' '] + (target + [' '] + ("HTTP" + ['/'] + end)))
           == Some(RequestHead(method_, SplitTarget(target).0, SplitTarget(target).1, DropLast(end)))
    {
      FindAfter("HTTP", '/', end);
      var protocol := "HTTP" + ['/'] + end;
      assert protocol[..4] == "HTTP" && protocol[5..] == end;
      LineOfParts(method_, target, protocol, 4);
    }
    assert (version + [last])[..|version|] == version;
  }

  /** No other line is. */
  lemma RequestLineNeeds(line: string) returns (method_: string, target: string, end: string)
    requires RequestLine(line).Some?
    ensures ' ' !in method_ && ' ' !in target && line == method_ + [' '] + (target + [' '] + ("HTTP" + ['/'] + end))
  {
    hide SplitTarget, Find, DropLast;
    var k := Find(line, ' ').value;
    var tail := line[k + 1..];
    var n := Find(tail, ' ').value;
    var protocol := tail[n + 1..];
    var m := Find(protocol, '/').value;
    assert protocol[..m] == "HTTP";
    method_, target, end := line[..k], tail[..n], protocol[m + 1..];
    hide RequestLine;
    CutAtFirst(line, ' ');
    CutAtFirst(tail, ' ');
    CutAtFirst(protocol, '/');
  }

  lemma CutAtFirst(s: string, c: char)
    requires Find(s, c).Some?
    ensures var k := Find(s, c).value; c !in s[..k] && s == s[..k] + [c] + s[k + 1..]
  {
    FindIsFirst(s, c);
    hide Find;
  }

  datatype Request = Request(head: RequestHead, fields: seq<Field>, rest: string)

  function ParsedRequest(s: string): Option<Request> {
    match GetLine(s)
    case None => None
    case Some(Line(line, rest)) =>
      match RequestLine(line)
      case None => None
      case Some(head) =>
        var (fields, left) := Headers.Header(rest);
        Some(Request(head, fields, left))
  }

  /** Path and query as `parse` cuts them out of the line. */
  lemma TargetCut(line: string, start: nat, end: nat, queryStart: Option<nat>)
    requires start <= end <= |line|
    requires queryStart == match FindLast(line[start..end], '?')
                           case None => None
                           case Some(q) => Some(start + q + 1)
    ensures queryStart.Some? ==> start < queryStart.value <= end
    ensures SplitTarget(line[start..end]) ==
            if queryStart == None then (line[start..end], "")
            else (line[start..queryStart.value - 1], line[queryStart.value..end])
  {
    hide FindLast;
    var target := line[start..end];
    if queryStart.Some? {
      var q := queryStart.value - 1 - start;
      assert target[..q] == line[start..start + q] && target[q + 1..] == line[start + q + 1..end];
    }
  }

  method ParseRequestLine(text: string) returns (r: Option<RequestHead>)
    ensures r == RequestLine(text)
  {
    hide FindLast, Find, SplitTarget, DropLast;
    var methodEnd := Find(text, ' ');
    if methodEnd == None {
      return None;
    }
    var start := methodEnd.value + 1;
    var queryStart, end := ScanTarget(text, start);
    if end == None {
      return None;
    }
    assert text[start..][..end.value - start] == text[start..end.value];
    assert text[start..][end.value - start + 1..] == text[end.value + 1..];
    var protocol := text[end.value + 1..];
    var protocolEnd := Find(protocol, '/');
    if protocolEnd == None || protocol[..protocolEnd.value] != "HTTP" {
      return None;
    }
    TargetCut(text, start, end.value, queryStart);
    var path := text[start..if queryStart.Some? then queryStart.value - 1 else end.value];
    var query := if queryStart.Some? then text[queryStart.value..end.value] else "";
    var version := DropLast(protocol[protocolEnd.value + 1..]);
    r := Some(RequestHead(text[..methodEnd.value], path, query, version));
  }

  /** `RequestMessage::parse`; `None` stands for the return value false. */
  method ParseRequest(stream: string) returns (r: Option<Request>)
    ensures r == ParsedRequest(stream)
  {
    hide Headers.Header, RequestLine;
    var line := GetLine(stream);
    if line == None {
      return None;
    }
    var head := ParseRequestLine(line.value.text);
    if head == None {
      return None;
    }
    var fields, rest := Headers.Parse(line.value.rest);
    r := Some(Request(head.value, fields, rest));
  }

  // ---------- requests as the client prints them ----------

  datatype Client = Client(host: string, port: nat, defaultPort: nat, proxied: bool)

  function Target(c: Client, path: string): string {
    var corrected := if path == "" then "/" else path;
    if c.proxied then "http://" + c.host + ":" + ToDecimal(c.port) + corrected else corrected
  }

  /** The target is the path, `/` if that is empty; for a proxy, host and port can be read off in front of it. */
  lemma TargetNamesHost(c: Client, path: string, defaultPort: nat)
    requires (path == "" || path[0] == '/') && ':' !in c.host && '/' !in c.host && c.port < 65536
    ensures var target, corrected := Target(c, path), if path == "" then "/" else path;
            if !c.proxied then target == corrected
            else
              && 7 <= |target| && target[..7] == "http://" && Find(target[7..], '/').Some?
              && var k := Find(target[7..], '/').value;
                 HostPort.HostAndPort(target[7..][..k], defaultPort) == (c.host, c.port) && target[7..][k..] == corrected
  {
    hide Stoul, ToDecimal, Find, HostPort.HostAndPort;
    var corrected := if path == "" then "/" else path;
    var port := ToDecimal(c.port);
    var authority := c.host + ":" + port;
    DigitsHaveNo(port, 10, '/');
    assert '/' !in authority;
    SlashBehind(authority, corrected);
    assert "http://" + c.host + ":" + port + corrected == "http://" + (authority + corrected);
    HostPort.PortMeaning(c.host, port, defaultPort);
    DecimalRoundTrip(c.port);
    assert ("http://" + (authority + corrected))[7..] == authority + corrected;
  }

  lemma SlashBehind(authority: string, path: string)
    requires '/' !in authority && path != "" && path[0] == '/'
    ensures var s := authority + path;
            Find(s, '/') == Some(|authority|) && s[..|authority|] == authority && s[|authority|..] == path
  {
    FindAfter(authority, '/', path[1..]);
    assert authority + path == authority + ['/'] + path[1..];
  }

  /** Whether `request` adds a Content-Length field of its own. */
  predicate AddsLength(find: Lookup, fields: seq<Field>, content: string) {
    content != "" && find(fields, "Content-Length") == None && find(fields, "Transfer-Encoding") != Some("chunked")
  }

  /** The fields on the wire: Host, the caller's, and Content-Length where it is added. */
  function SentFields(find: Lookup, c: Client, fields: seq<Field>, content: string): seq<Field> {
    [Field("Host", HostPort.HostValue(c.host, c.port, c.defaultPort))] + fields
    + if AddsLength(find, fields, content) then [Field("Content-Length", ToDecimal(|content|))] else []
  }

  function RequestText(find: Lookup, c: Client, method_: string, path: string, fields: seq<Field>, content: string): string {
    method_ + " " + Target(c, path) + " HTTP/1.1" + CRLF + (Headers.Lines(SentFields(find, c, fields, content)) + CRLF + content)
  }

  /** The head of a message: its first line, the fields, the empty line. */
  function HeadText(line: string, fields: seq<Field>): string {
    line + CRLF + (Headers.Lines(fields) + CRLF)
  }

  lemma RequestIsHeadAndContent(find: Lookup, c: Client, method_: string, path: string, fields: seq<Field>, content: string)
    ensures RequestText(find, c, method_, path, fields, content)
         == HeadText(method_ + " " + Target(c, path) + " HTTP/1.1", SentFields(find, c, fields, content)) + content
  {
  }

  lemma LinesAppend(fields: seq<Field>, f: Field)
    ensures Headers.Lines(fields + [f]) == Headers.Lines(fields) + (f.name + ": " + f.value + CRLF)
  {
    assert (fields + [f])[..|fields|] == fields;
  }

  /** `create_request_header` and the rest of `request`. */
  method WriteRequest(find: Lookup, c: Client, method_: string, path: string, fields: seq<Field>, content: string) returns (stream: string)
    ensures stream == RequestText(find, c, method_, path, fields, content)
  {
    hide ToDecimal, HostPort.HostValue;
    var correctedPath := path;
    if correctedPath == "" {
      correctedPath := "/";
    }
    if c.proxied {
      correctedPath := "http://" + c.host + ":" + ToDecimal(c.port) + correctedPath;
    }
    var requestLine := method_ + " " + correctedPath + " HTTP/1.1" + CRLF;
    var hostValue := HostPort.HostValue(c.host, c.port, c.defaultPort);
    ghost var sent := [Field("Host", hostValue)];
    var lines := "Host: " + hostValue + CRLF;
    assert lines == Headers.Lines(sent) by {
      assert sent[..0] == [] && "" + Headers.FieldLine(sent[0]) == Headers.FieldLine(sent[0]);
      assert "Host" + ": " + hostValue + CRLF == "Host: " + hostValue + CRLF;
    }
    for i := 0 to |fields|
      invariant lines == Headers.Lines(sent + fields[..i])
    {
      LinesAppend(sent + fields[..i], fields[i]);
      assert sent + fields[..i + 1] == (sent + fields[..i]) + [fields[i]];
      lines := lines + (fields[i].name + ": " + fields[i].value + CRLF);
    }
    assert fields[..|fields|] == fields;
    if content != "" {
      if find(fields, "Content-Length") == None {
        if find(fields, "Transfer-Encoding") != Some("chunked") {
          LinesAppend(sent + fields, Field("Content-Length", ToDecimal(|content|)));
          lines := lines + ("Content-Length" + ": " + ToDecimal(|content|) + CRLF);
        }
      }
    }
    assert sent + fields + [] == sent + fields;
    stream := requestLine + (lines + CRLF + content);
  }

  predicate Plain(s: string) {
    ' ' !in s && '\n' !in s
  }

  lemma RequestLineParses(method_: string, target: string)
    requires ' ' !in method_ && ' ' !in target
    ensures RequestLine(method_ + " " + target + " HTTP/1.1" + "\r")
         == Some(RequestHead(method_, SplitTarget(target).0, SplitTarget(target).1, "1.1"))
  {
    hide SplitTarget, Find, DropLast, RequestLine;
    var protocol := "HTTP/1.1\r";
    assert " HTTP/1.1" + "\r" == [' '] + protocol;
    assert method_ + " " + target + " HTTP/1.1" + "\r" == method_ + [' '] + (target + [' '] + protocol);
    ProtocolParses();
    LineOfParts(method_, target, protocol, 4);
  }

  lemma LineOfParts(method_: string, target: string, protocol: string, k: nat)
    requires ' ' !in method_ && ' ' !in target && Find(protocol, '/') == Some(k) && protocol[..k] == "HTTP"
    ensures RequestLine(method_ + [' '] + (target + [' '] + protocol))
         == Some(RequestHead(method_, SplitTarget(target).0, SplitTarget(target).1, DropLast(protocol[k + 1..])))
  {
    hide SplitTarget, Find, DropLast;
    var tail := target + [' '] + protocol;
    var line := method_ + [' '] + tail;
    FindAfter(method_, ' ', tail);
    assert line[..|method_|] == method_ && line[|method_| + 1..] == tail;
    FindAfter(target, ' ', protocol);
    assert tail[..|target|] == target && tail[|target| + 1..] == protocol;
  }

  lemma ProtocolParses()
    ensures Find("HTTP/1.1\r", '/') == Some(4)
    ensures "HTTP/1.1\r"[..4] == "HTTP" && DropLast("HTTP/1.1\r"[5..]) == "1.1"
  {
    FindAfter("HTTP", '/', "1.1\r");
    assert "HTTP/1.1\r" == "HTTP" + ['/'] + "1.1\r";
    assert "HTTP/1.1\r"[5..] == "1.1\r" && "1.1\r"[..3] == "1.1";
  }

  /** The two parts of a target rejoin at its last `?`. */
  lemma TargetRejoins(target: string)
    ensures var (path, query) := SplitTarget(target);
            && '?' !in query
            && target == if '?' in target then path + "?" + query else path
  {
    FindLastIsLast(target, '?');
    match FindLast(target, '?')
    case None =>
    case Some(k) => assert target == target[..k] + "?" + target[k + 1..];
  }

  lemma HeadIsLineAndFields(line: string, fields: seq<Field>, rest: string)
    ensures HeadText(line, fields) + rest == (line + "\r") + "\n" + (Headers.Lines(fields) + CRLF + rest)
  {
  }

  /** A printed head parses whatever follows it, and leaves that. */
  lemma RequestHeadParses(method_: string, target: string, fields: seq<Field>, rest: string)
    requires Plain(method_) && Plain(target) && Headers.AllOk(fields)
    ensures ParsedRequest(HeadText(method_ + " " + target + " HTTP/1.1", fields) + rest)
         == Some(Request(RequestHead(method_, SplitTarget(target).0, SplitTarget(target).1, "1.1"), fields, rest))
  {
    hide SplitTarget, RequestLine, Headers.Header, Headers.FieldOk;
    var line := method_ + " " + target + " HTTP/1.1";
    HeadIsLineAndFields(line, fields, rest);
    GetLineOf(line + "\r", Headers.Lines(fields) + CRLF + rest);
    RequestLineParses(method_, target);
    Headers.RoundTrip(fields, rest);
  }

  /** The server reads what the client wrote: the method, version 1.1, path and query of the target,
      the fields sent, and it leaves exactly the content and what follows it. */
  lemma RequestRoundTrip(find: Lookup, c: Client, method_: string, path: string, fields: seq<Field>, content: string, more: string)
    requires Plain(method_) && Plain(Target(c, path))
    requires Headers.AllOk(SentFields(find, c, fields, content))
    ensures ParsedRequest(RequestText(find, c, method_, path, fields, content) + more)
         == Some(Request(RequestHead(method_, SplitTarget(Target(c, path)).0, SplitTarget(Target(c, path)).1, "1.1"),
                         SentFields(find, c, fields, content), content + more))
  {
    hide Target, SentFields, SplitTarget, ParsedRequest, HeadText, RequestText, Headers.FieldOk;
    RequestIsHeadAndContent(find, c, method_, path, fields, content);
    var head := HeadText(method_ + " " + Target(c, path) + " HTTP/1.1", SentFields(find, c, fields, content));
    assert head + content + more == head + (content + more);
    RequestHeadParses(method_, Target(c, path), SentFields(find, c, fields, content), content + more);
  }

  lemma HostFieldIsOk(c: Client)
    requires '\n' !in c.host && (c.host == "" || c.host[0] != ' ')
    ensures Headers.FieldOk(Field("Host", HostPort.HostValue(c.host, c.port, c.defaultPort)))
  {
    DigitsHaveNo(ToDecimal(c.port), 10, '\n');
  }

  lemma NumberFieldIsOk(n: nat)
    ensures Headers.FieldOk(Field("Content-Length", ToDecimal(n)))
  {
    DigitsHaveNo(ToDecimal(n), 10, '\n');
    assert IsDigit(ToDecimal(n)[0], 10);
  }

  /** The fields the client adds never spoil the header: it is enough that the caller's are in order
      and that the host can stand in a field. */
  lemma AddedFieldsAreOk(find: Lookup, c: Client, fields: seq<Field>, content: string)
    requires Headers.AllOk(fields) && '\n' !in c.host && (c.host == "" || c.host[0] != ' ')
    ensures Headers.AllOk(SentFields(find, c, fields, content))
  {
    HostFieldIsOk(c);
    NumberFieldIsOk(|content|);
    hide AddsLength, HostPort.HostValue, Headers.FieldOk;
    var host := Field("Host", HostPort.HostValue(c.host, c.port, c.defaultPort));
    var length := Field("Content-Length", ToDecimal(|content|));
    assert forall f :: f in SentFields(find, c, fields, content) ==> f == host || f == length || f in fields;
  }

  /** What is sent: Host, the caller's fields, and a length exactly if there is content, the caller gives no
      length and does not announce chunks. */
  lemma LengthSentIff(sent: Lookup, c: Client, fields: seq<Field>, content: string)
    requires Finds(sent)
    ensures SentFields(sent, c, fields, content)
         == [Field("Host", HostPort.HostValue(c.host, c.port, c.defaultPort))] + fields
            + if content != "" && Absent(fields, "Content-Length") && sent(fields, "Transfer-Encoding") != Some("chunked")
              then [Field("Content-Length", ToDecimal(|content|))] else []
  {
    FindsOnly(sent, fields, "Content-Length");
    hide Finds, Absent, Only;
  }

  /** Whichever field of a name either side's container returns: if the caller gives no length, the server
      finds one if and only if there is content and no chunks are announced, and reads as many bytes as were
      sent. */
  lemma AddedLengthIsRead(sent: Lookup, find: Lookup, c: Client, fields: seq<Field>, content: string)
    requires Finds(sent) && Finds(find) && Absent(fields, "Content-Length") && |content| < ULONG_LIMIT
    ensures find(SentFields(sent, c, fields, content), "Content-Length")
         == if content != "" && sent(fields, "Transfer-Encoding") != Some("chunked") then Some(ToDecimal(|content|)) else None
    ensures Stoul(ToDecimal(|content|), 10) == Some(|content|)
  {
    LengthSentIff(sent, c, fields, content);
    hide Stoul, ToDecimal, Absent, Only, CaseInsensitiveEqual, Finds, SentFields;
    var host := Field("Host", HostPort.HostValue(c.host, c.port, c.defaultPort));
    HostIsNoFraming(host, fields);
    var length := Field("Content-Length", ToDecimal(|content|));
    NameIsItself(length.name);
    LengthAddedOnce([host] + fields, length, "Content-Length");
    FindsOnly(find, [host] + fields + [length], "Content-Length");
    FindsOnly(find, [host] + fields, "Content-Length");
    assert [host] + fields + [] == [host] + fields;
    DecimalRoundTrip(|content|);
  }

  lemma NameIsItself(name: string)
    ensures CaseInsensitiveEqual(name, name)
  {
  }

  lemma HostIsNoFraming(host: Field, fields: seq<Field>)
    requires host.name == "Host"
    ensures Absent(fields, "Content-Length") ==> Absent([host] + fields, "Content-Length")
    ensures forall v :: Only(fields, "Transfer-Encoding", v) ==> Only([host] + fields, "Transfer-Encoding", v)
  {
    assert |"Host"| != |"Content-Length"| && |"Host"| != |"Transfer-Encoding"|;
    assert !CaseInsensitiveEqual(host.name, "Content-Length") && !CaseInsensitiveEqual(host.name, "Transfer-Encoding");
    hide CaseInsensitiveEqual;
    assert forall f :: f in [host] + fields <==> f == host || f in fields;
  }

  lemma LengthAddedOnce(fields: seq<Field>, f: Field, name: string)
    requires Absent(fields, name) && CaseInsensitiveEqual(f.name, name)
    ensures Only(fields + [f], name, f.value)
  {
    hide CaseInsensitiveEqual;
    assert f in fields + [f];
    assert forall g :: g in fields + [f] <==> g in fields || g == f;
  }

  // ---------- responses ----------

  datatype Response = Response(version: string, status: string, fields: seq<Field>, rest: string)

  /** The status line: version from the sixth character to the first space, status behind it. */
  function StatusLine(line: string): Option<(string, string)> {
    match Find(line, ' ')
    case None => None
    case Some(k) =>
      if |line| <= 5 || k + 1 >= |line| then None
      else Some((if k < 5 then line[5..] else line[5..k],
                 line[k + 1..if line[|line| - 1] == '\r' then |line| - 1 else |line|]))
  }

  /** Five characters, the version, a space and the status, with or without a CR behind it. */
  lemma StatusLineMeaning(protocol: string, version: string, status: string, cr: string)
    requires |protocol| == 5 && ' ' !in protocol && ' ' !in version && (cr == "" || cr == "\r") && status + cr != ""
    requires status != "" ==> status[|status| - 1] != '\r'
    ensures StatusLine(protocol + version + [' '] + (status + cr)) == Some((version, status))
  {
    hide Find;
    var front, rest := protocol + version, status + cr;
    var line := front + [' '] + rest;
    FindAfter(front, ' ', rest);
    assert line[5..|front|] == version && line[|front| + 1..] == rest;
    assert line[|line| - 1] == rest[|rest| - 1];
    assert line[|front| + 1..|line| - |cr|] == status;
  }

  /** There is none without a space, in fewer than six characters, or with nothing behind its first space.
      If that comes before the sixth character, the version is all that is behind the fifth. */
  lemma StatusLineNeeds(word: string, rest: string)
    requires ' ' !in word
    ensures StatusLine(word) == None
    ensures StatusLine(word + [' ']) == None
    ensures |word + [' '] + rest| <= 5 ==> StatusLine(word + [' '] + rest) == None
    ensures |word| < 5 < |word + [' '] + rest| && rest[|rest| - 1] != '\r' ==>
              StatusLine(word + [' '] + rest) == Some(((word + [' '] + rest)[5..], rest))
  {
    hide Find;
    FindNone(word, ' ');
    FindAfter(word, ' ', rest);
    FindAfter(word, ' ', "");
    assert word + [' '] + "" == word + [' '];
    var line := word + [' '] + rest;
    if |word| < 5 < |line| {
      assert line[|word| + 1..] == rest && line[|line| - 1] == rest[|rest| - 1];
      assert line[|word| + 1..|line|] == rest;
    }
  }

  function ParsedResponse(s: string): Option<Response> {
    match GetLine(s)
    case None => None
    case Some(Line(line, rest)) =>
      match StatusLine(line)
      case None => None
      case Some((version, status)) =>
        var (fields, left) := Headers.Header(rest);
        Some(Response(version, status, fields, left))
  }

  /** `ResponseMessage::parse`; a count of `versionEnd - 5` below zero wraps around and cuts nothing. */
  method ParseResponse(stream: string) returns (r: Option<Response>)
    ensures r == ParsedResponse(stream)
  {
    hide Headers.Header, Find;
    var line := GetLine(stream);
    if line == None {
      return None;
    }
    var text := line.value.text;
    var versionEnd := Find(text, ' ');
    if versionEnd == None || !(5 < |text|) || !(versionEnd.value + 1 < |text|) {
      return None;
    }
    var version := if versionEnd.value >= 5 then text[5..versionEnd.value] else text[5..];
    var count := |text| - (versionEnd.value + 1) - if text[|text| - 1] == '\r' then 1 else 0;
    var status := text[versionEnd.value + 1..versionEnd.value + 1 + count];
    var fields, rest := Headers.Parse(line.value.rest);
    r := Some(Response(version, status, fields, rest));
  }

  ghost predicate HasLength(fields: seq<Field>) {
    exists f :: f in fields && CaseInsensitiveEqual(f.name, "content-length")
  }

  ghost predicate IsChunked(fields: seq<Field>) {
    exists f :: f in fields && CaseInsensitiveEqual(f.name, "transfer-encoding") && CaseInsensitiveEqual(f.value, "chunked")
  }

  /** The fields of a response: the caller's, and Content-Length unless the body is delimited otherwise. */
  ghost function AnsweredFields(fields: seq<Field>, size: nat, close: bool): seq<Field> {
    fields + if HasLength(fields) || IsChunked(fields) || close then [] else [Field("Content-Length", ToDecimal(size))]
  }

  ghost function ResponseText(status: string, fields: seq<Field>, content: string, close: bool): string {
    "HTTP/1.1 " + status + CRLF + (Headers.Lines(AnsweredFields(fields, |content|, close)) + CRLF + content)
  }

  /** `write_header`. */
  method WriteHeader(fields: seq<Field>, size: nat, closeConnectionAfterResponse: bool) returns (text: string)
    ensures text == Headers.Lines(AnsweredFields(fields, size, closeConnectionAfterResponse)) + CRLF
  {
    hide CaseInsensitiveEqual, ToDecimal;
    var contentLengthWritten, chunkedTransferEncoding := false, false;
    text := "";
    for i := 0 to |fields|
      invariant text == Headers.Lines(fields[..i])
      invariant contentLengthWritten == HasLength(fields[..i])
      invariant chunkedTransferEncoding == IsChunked(fields[..i])
    {
      var field := fields[i];
      assert fields[..i + 1] == fields[..i] + [field];
      LinesAppend(fields[..i], field);
      FlagsAppend(fields[..i], field);
      if !contentLengthWritten && CaseInsensitiveEqual(field.name, "content-length") {
        contentLengthWritten := true;
      } else if !chunkedTransferEncoding && CaseInsensitiveEqual(field.name, "transfer-encoding")
                && CaseInsensitiveEqual(field.value, "chunked") {
        chunkedTransferEncoding := true;
      }
      text := text + (field.name + ": " + field.value + CRLF);
    }
    assert fields[..|fields|] == fields && fields + [] == fields;
    if !contentLengthWritten && !chunkedTransferEncoding && !closeConnectionAfterResponse {
      LinesAppend(fields, Field("Content-Length", ToDecimal(size)));
      text := text + ("Content-Length" + ": " + ToDecimal(size) + CRLF) + CRLF;
    } else {
      text := text + CRLF;
    }
  }

  /** A field cannot be both, so the `else if` in `write_header` misses nothing. */
  lemma FlagsAppend(fields: seq<Field>, f: Field)
    ensures HasLength(fields + [f]) <==> HasLength(fields) || CaseInsensitiveEqual(f.name, "content-length")
    ensures IsChunked(fields + [f]) <==>
            IsChunked(fields) || (CaseInsensitiveEqual(f.name, "transfer-encoding") && CaseInsensitiveEqual(f.value, "chunked"))
    ensures !(CaseInsensitiveEqual(f.name, "content-length") && CaseInsensitiveEqual(f.name, "transfer-encoding"))
  {
    assert |"content-length"| != |"transfer-encoding"|;
    hide CaseInsensitiveEqual;
    assert forall g :: g in fields + [f] <==> g in fields || g == f;
  }

  /** `Response::write` with a status and content. */
  method WriteResponse(status: string, content: string, fields: seq<Field>, closeConnectionAfterResponse: bool)
      returns (stream: string)
    ensures stream == ResponseText(status, fields, content, closeConnectionAfterResponse)
  {
    hide AnsweredFields;
    var header := WriteHeader(fields, |content|, closeConnectionAfterResponse);
    stream := "HTTP/1.1 " + status + CRLF + header;
    ghost var lines := Headers.Lines(AnsweredFields(fields, |content|, closeConnectionAfterResponse));
    assert stream + content == "HTTP/1.1 " + status + CRLF + (lines + CRLF + content);
    if content != "" {
      stream := stream + content;
    } else {
      assert stream + content == stream;
    }
  }

  lemma StatusLineParses(status: string)
    ensures StatusLine("HTTP/1.1 " + status + "\r") == Some(("1.1", status))
  {
    var line := "HTTP/1.1 " + status + "\r";
    FindAfter("HTTP/1.1", ' ', status + "\r");
    assert line == "HTTP/1.1" + [' '] + (status + "\r");
    assert line[5..8] == "1.1" && line[9..|line| - 1] == status;
  }

  lemma ResponseIsHeadAndContent(status: string, fields: seq<Field>, content: string, close: bool)
    ensures ResponseText(status, fields, content, close)
         == HeadText("HTTP/1.1 " + status, AnsweredFields(fields, |content|, close)) + content
  {
    hide AnsweredFields;
  }

  lemma ResponseHeadParses(status: string, fields: seq<Field>, rest: string)
    requires '\n' !in status && Headers.AllOk(fields)
    ensures ParsedResponse(HeadText("HTTP/1.1 " + status, fields) + rest) == Some(Response("1.1", status, fields, rest))
  {
    hide StatusLine, Headers.Header, Headers.FieldOk;
    var line := "HTTP/1.1 " + status;
    HeadIsLineAndFields(line, fields, rest);
    GetLineOf(line + "\r", Headers.Lines(fields) + CRLF + rest);
    StatusLineParses(status);
    Headers.RoundTrip(fields, rest);
  }

  /** The client reads what the server wrote: version 1.1, the status text, the fields answered, and
      it leaves exactly the content and what follows it. */
  lemma ResponseRoundTrip(status: string, fields: seq<Field>, content: string, close: bool, more: string)
    requires '\n' !in status && Headers.AllOk(fields)
    ensures ParsedResponse(ResponseText(status, fields, content, close) + more)
         == Some(Response("1.1", status, AnsweredFields(fields, |content|, close), content + more))
  {
    LengthFieldIsOk(fields, |content|, close);
    ResponseIsHeadAndContent(status, fields, content, close);
    hide AnsweredFields, ParsedResponse, HeadText, ResponseText, Headers.FieldOk;
    var head := HeadText("HTTP/1.1 " + status, AnsweredFields(fields, |content|, close));
    assert head + content + more == head + (content + more);
    ResponseHeadParses(status, AnsweredFields(fields, |content|, close), content + more);
  }

  lemma LengthFieldIsOk(fields: seq<Field>, size: nat, close: bool)
    requires Headers.AllOk(fields)
    ensures Headers.AllOk(AnsweredFields(fields, size, close))
  {
    hide HasLength, IsChunked, Headers.FieldOk;
    NumberFieldIsOk(size);
  }

  /** A length is answered exactly if the caller gives none, does not announce chunks in any case of letters,
      and the connection stays open. */
  lemma LengthAnsweredIff(fields: seq<Field>, size: nat, close: bool)
    ensures IsChunked(fields) <==>
              exists f :: f in fields && CaseInsensitiveEqual(f.name, "Transfer-Encoding") && CaseInsensitiveEqual(f.value, "chunked")
    ensures AnsweredFields(fields, size, close)
         == fields + if Absent(fields, "Content-Length") && !IsChunked(fields) && !close then [Field("Content-Length", ToDecimal(size))] else []
  {
    HasLengthIff(fields);
    forall f | f in fields
      ensures CaseInsensitiveEqual(f.name, "Transfer-Encoding") <==> CaseInsensitiveEqual(f.name, "transfer-encoding")
    {
      SameEncodingName(f.name);
    }
    hide CaseInsensitiveEqual, Absent, HasLength;
  }

  lemma SameEncodingName(name: string)
    ensures CaseInsensitiveEqual(name, "Transfer-Encoding") <==> CaseInsensitiveEqual(name, "transfer-encoding")
  {
    assert forall i :: 0 <= i < |"transfer-encoding"| ==> Lower("Transfer-Encoding"[i]) == Lower("transfer-encoding"[i]);
  }

  /** Where the server adds the length, the client finds it and it is the number of bytes written. */
  lemma AnsweredLengthIsRead(find: Lookup, fields: seq<Field>, size: nat)
    requires Finds(find) && !HasLength(fields) && !IsChunked(fields) && size < ULONG_LIMIT
    ensures find(AnsweredFields(fields, size, false), "Content-Length") == Some(ToDecimal(size))
    ensures Stoul(ToDecimal(size), 10) == Some(size)
  {
    hide Stoul, ToDecimal;
    var length := Field("Content-Length", ToDecimal(size));
    HasLengthIff(fields);
    LengthAddedOnce(fields, length, "Content-Length");
    FindsOnly(find, fields + [length], "Content-Length");
    DecimalRoundTrip(size);
  }

  lemma HasLengthIff(fields: seq<Field>)
    ensures HasLength(fields) <==> !Absent(fields, "Content-Length")
  {
    forall f | f in fields
      ensures CaseInsensitiveEqual(f.name, "Content-Length") <==> CaseInsensitiveEqual(f.name, "content-length")
    {
      SameName(f.name);
    }
  }

  lemma SameName(name: string)
    ensures CaseInsensitiveEqual(name, "Content-Length") <==> CaseInsensitiveEqual(name, "content-length")
  {
    assert forall i :: 0 <= i < |"content-length"| ==> Lower("Content-Length"[i]) == Lower("content-length"[i]);
  }
}
