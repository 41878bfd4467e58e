/** Where the head of a message ends: the delimiter the server reads up to, the header end the client
    reads up to, and what parsing leaves in the buffer behind either. */
module Heads {
  import opened Wrappers
  import opened Text
  import opened QueryString
  import Headers
  import HeaderEnd
  import Messages

  // ---------- the server's delimiter ----------

  predicate StartsBlank(s: string) {
    |s| >= 4 && s[0] == '\r' && s[1] == '\n' && s[2] == '\r' && s[3] == '\n'
  }

  /** The position behind the first CRLF CRLF. */
  function BlankEnd(s: string): (r: Option<nat>)
    ensures r.Some? ==>
              && 4 <= r.value <= |s|
              && s[r.value - 4] == '\r' && s[r.value - 3] == '\n' && s[r.value - 2] == '\r' && s[r.value - 1] == '\n'
  {
    if |s| < 4 then None
    else if StartsBlank(s) then Some(4)
    else
      match BlankEnd(s[1..])
      case None => None
      case Some(k) => Some(k + 1)
  }

  lemma {:induction false} BlankEndPrefix(a: string, s: string)
    requires a <= s
    ensures BlankEnd(a) == if BlankEnd(s).Some? && BlankEnd(s).value <= |a| then BlankEnd(s) else None
  {
    if |a| >= 4 {
      BlankEndPrefix(a[1..], s[1..]);
    }
  }

  predicate StartsCrlf(s: string) {
    |s| >= 2 && s[0] == '\r' && s[1] == '\n'
  }

  /** A line does not hold the delimiter, and nor does its end unless an empty line follows. */
  lemma NoBlankGoesOn(s: string)
    requires s != "" && !StartsBlank(s)
    ensures BlankEnd(s) == if BlankEnd(s[1..]) == None then None else Some(1 + BlankEnd(s[1..]).value)
  {
    hide StartsBlank;
  }

  lemma {:induction false} BlankEndSkips(line: string, rest: string)
    requires '\n' !in line
    ensures BlankEnd(line + (CRLF + rest)) ==
            if StartsCrlf(rest) then Some(|line| + 4)
            else if BlankEnd(rest) == None then None else Some(|line| + 2 + BlankEnd(rest).value)
  {
    hide BlankEnd, StartsBlank, StartsCrlf;
    var s := line + (CRLF + rest);
    if line == "" {
      EndOfLine(rest);
      assert s == CRLF + rest;
    } else {
      BlankEndSkips(line[1..], rest);
      NoBlankHere(line, CRLF + rest);
      NoBlankGoesOn(s);
    }
  }

  lemma NoBlankHere(line: string, after: string)
    requires line != "" && '\n' !in line && after != "" && after[0] == '\r'
    ensures (line + after)[1..] == line[1..] + after && !StartsBlank(line + after)
  {
    assert (line + after)[1] == if |line| > 1 then line[1] else after[0];
    assert |line| > 1 ==> line[1] in line;
  }

  lemma EndOfLine(rest: string)
    ensures BlankEnd(CRLF + rest) ==
            if StartsCrlf(rest) then Some(4)
            else if BlankEnd(rest) == None then None else Some(2 + BlankEnd(rest).value)
  {
    var s := CRLF + rest;
    assert s[1..] == "\n" + rest && s[1..][1..] == rest;
    assert StartsBlank(s) <==> StartsCrlf(rest);
    assert !StartsBlank(s[1..]);
    if StartsCrlf(rest) {
      assert BlankEnd(s) == Some(4);
    } else {
      hide BlankEnd, StartsBlank, StartsCrlf;
      NoBlankGoesOn(s);
      NoBlankGoesOn(s[1..]);
    }
  }

  /** The first delimiter of a printed head is at its end. */
  lemma {:induction false} PrintedHeadEnds(line: string, fields: seq<Field>, tail: string)
    requires '\n' !in line && Headers.OneLineEach(fields)
    ensures BlankEnd(line + CRLF + (Headers.Lines(fields) + CRLF + tail)) == Some(|line| + 2 + |Headers.Lines(fields)| + 2)
    decreases fields
  {
    hide BlankEnd, Headers.Lines;
    var rest := Headers.Lines(fields) + CRLF + tail;
    BlankEndSkips(line, rest);
    assert line + CRLF + rest == line + (CRLF + rest);
    if fields == [] {
      NoLines();
      assert rest == CRLF + tail;
    } else {
      Headers.LinesFront(fields);
      var f := fields[0];
      var text := f.name + ": " + f.value;
      var after := Headers.Lines(fields[1..]) + CRLF + tail;
      assert rest == text + CRLF + after;
      assert Headers.NameOk(f.name) && '\n' !in text;
      assert rest[1] == text[1] && text[1] in text;
      PrintedHeadEnds(text, fields[1..], tail);
    }
  }

  lemma NoLines()
    ensures Headers.Lines([]) == ""
  {
  }

  // ---------- the client's header end ----------

  lemma {:induction false} RunWithin(s: string, p: nat, line: string, k: nat)
    requires p + |line| <= |s| && s[p..p + |line|] == line && k <= |line|
    requires p == 0 || s[p - 1] != '\r'
    ensures HeaderEnd.CrRun(s, p + k) == HeaderEnd.CrRun(line, k)
  {
    if k > 0 {
      assert s[p + k - 1] == line[k - 1];
      RunWithin(s, p, line, k - 1);
    }
  }

  /** A line of text with its CRLF, at `p`. */
  ghost predicate LineAt(s: string, p: nat, line: string) {
    && p + |line| + 2 <= |s| && s[p..p + |line|] == line && s[p + |line|] == '\r' && s[p + |line| + 1] == '\n'
    && '\n' !in line && line != "" && (p == 0 || s[p - 1] == '\n')
  }

  lemma LineIsWithin(s: string, p: nat, line: string)
    requires LineAt(s, p, line)
    ensures p + |line| + 2 <= |s|
  {
  }

  /** No header ends in a line of text. */
  lemma TextStaysOpen(s: string, p: nat, line: string)
    requires LineAt(s, p, line) && HeaderEnd.Open(s, p)
    ensures p + |line| + 2 <= |s| && s[p + |line| + 1] == '\n' && HeaderEnd.Open(s, p + |line| + 2)
  {
    forall m | p < m <= p + |line| + 2 ensures !HeaderEnd.EndsHeader(s, m) {
      if m <= p + |line| {
        assert s[m - 1] == line[m - 1 - p] && line[m - 1 - p] in line;
      } else if m == p + |line| + 2 {
        assert s[m - 3] == line[|line| - 1] && line[|line| - 1] in line;
      }
    }
  }

  /** At the empty line behind a line of text a header ends exactly if the text ends in an even number
      of `\r`; otherwise the search goes on. */
  lemma EmptyLineDecides(s: string, p: nat, line: string)
    requires LineAt(s, p, line) && HeaderEnd.Open(s, p + |line| + 2)
    requires |s| >= p + |line| + 4 && s[p + |line| + 2] == '\r' && s[p + |line| + 3] == '\n'
    ensures var e := p + |line| + 4;
            if HeaderEnd.CrRun(line, |line|) % 2 == 0 then HeaderEnd.IsFirstEnd(s, e) else HeaderEnd.Open(s, e)
  {
    var q := p + |line| + 2;
    RunWithin(s, p, line, |line|);
    EndBehindCrlfs(s, q, HeaderEnd.CrRun(line, |line|));
    hide HeaderEnd.CrRun, HeaderEnd.EndsHeader;
    assert HeaderEnd.Open(s, q + 1);
  }

  lemma EndBehindCrlfs(s: string, q: nat, run: nat)
    requires 2 <= q && q + 2 <= |s| && s[q - 2] == '\r' && s[q - 1] == '\n' && s[q] == '\r' && s[q + 1] == '\n'
    requires HeaderEnd.CrRun(s, q - 2) == run
    ensures !HeaderEnd.EndsHeader(s, q + 1)
    ensures HeaderEnd.EndsHeader(s, q + 2) <==> run % 2 == 0
  {
    assert HeaderEnd.CrRun(s, q - 1) == 1 + run;
  }

  /** The text of the last line of a printed head. */
  function LastText(line: string, fields: seq<Field>): string {
    if fields == [] then line else fields[|fields| - 1].name + ": " + fields[|fields| - 1].value
  }

  /** The first field of a printed head, as the line it is. */
  lemma FirstFieldLine(line: string, fields: seq<Field>, tail: string, text: string)
    requires fields != [] && Headers.OneLineEach(fields) && text == fields[0].name + ": " + fields[0].value
    ensures '\n' !in text && text != "" && Headers.OneLineEach(fields[1..])
    ensures |Headers.Lines(fields)| == |text| + 2 + |Headers.Lines(fields[1..])|
    ensures Headers.Lines(fields) + CRLF + tail == text + CRLF + (Headers.Lines(fields[1..]) + CRLF + tail)
    ensures LastText(line, fields) == LastText(text, fields[1..])
  {
    hide Headers.Lines;
    Headers.LinesFront(fields);
    assert Headers.NameOk(fields[0].name);
  }

  lemma LastLineDecides(s: string, p: nat, line: string, tail: string)
    requires LineAt(s, p, line) && HeaderEnd.Open(s, p) && s[p + |line| + 2..] == CRLF + tail
    ensures var e := p + |line| + 4;
            && e <= |s|
            && if HeaderEnd.CrRun(line, |line|) % 2 == 0 then HeaderEnd.IsFirstEnd(s, e) else HeaderEnd.Open(s, e)
  {
    TextStaysOpen(s, p, line);
    hide HeaderEnd.Open, HeaderEnd.IsFirstEnd, HeaderEnd.CrRun;
    var q := p + |line| + 2;
    assert s[q] == s[q..][0] && s[q + 1] == s[q..][1];
    EmptyLineDecides(s, p, line);
  }

  /** The first header end of a printed head is at its end if and only if the text of its last line ends
      in an even number of `\r`; otherwise there is none in it. `p` is where `line` begins. */
  lemma {:induction false} PrintedHeadMatches(s: string, p: nat, line: string, fields: seq<Field>, tail: string)
    requires LineAt(s, p, line) && HeaderEnd.Open(s, p) && Headers.OneLineEach(fields)
    requires s[p + |line| + 2..] == Headers.Lines(fields) + CRLF + tail
    ensures var e := p + |line| + 2 + |Headers.Lines(fields)| + 2;
            var text := LastText(line, fields);
            && e <= |s|
            && if HeaderEnd.CrRun(text, |text|) % 2 == 0 then HeaderEnd.IsFirstEnd(s, e) else HeaderEnd.Open(s, e)
    decreases fields
  {
    hide Headers.Lines, HeaderEnd.Open, HeaderEnd.IsFirstEnd, HeaderEnd.CrRun, LineAt, Headers.OneLineEach;
    if fields == [] {
      NoLines();
      assert "" + CRLF + tail == CRLF + tail;
      LastLineDecides(s, p, line, tail);
    } else {
      hide LastText;
      TextStaysOpen(s, p, line);
      var q := p + |line| + 2;
      var text := fields[0].name + ": " + fields[0].value;
      FirstFieldLine(line, fields, tail, text);
      NextLineAt(s, q, text, Headers.Lines(fields[1..]) + CRLF + tail);
      PrintedHeadMatches(s, q, text, fields[1..], tail);
    }
  }

  lemma NextLineAt(s: string, q: nat, text: string, after: string)
    requires q <= |s| && s[q..] == text + CRLF + after
    requires '\n' !in text && text != "" && (q == 0 || s[q - 1] == '\n')
    ensures LineAt(s, q, text) && s[q + |text| + 2..] == after
  {
    var rest := text + CRLF + after;
    assert s[q..][..|text|] == rest[..|text|] == text;
    assert s[q..][|text|] == '\r' && s[q..][|text| + 1] == '\n';
    assert s[q..][|text| + 2..] == after;
  }

  // ---------- the heads of requests and responses ----------

  /** The server's delimiter ends the head of every request the client prints. */
  lemma RequestHeadEnds(find: Messages.Lookup, c: Messages.Client, method_: string, path: string, fields: seq<Field>, content: string, more: string)
    requires Messages.Plain(method_) && Messages.Plain(Messages.Target(c, path))
    requires Headers.OneLineEach(Messages.SentFields(find, c, fields, content))
    ensures BlankEnd(Messages.RequestText(find, c, method_, path, fields, content) + more)
         == Some(|Messages.RequestText(find, c, method_, path, fields, content)| - |content|)
  {
    hide BlankEnd, Messages.SentFields, Messages.Target;
    var line := method_ + " " + Messages.Target(c, path) + " HTTP/1.1";
    var sent := Messages.SentFields(find, c, fields, content);
    assert Messages.RequestText(find, c, method_, path, fields, content) + more
        == line + CRLF + (Headers.Lines(sent) + CRLF + (content + more));
    PrintedHeadEnds(line, sent, content + more);
  }

  /** The client finds the end of a printed head, whatever follows, if and only if the text of its last
      line ends in an even number of `\r`. */
  lemma HeadTextEnds(line: string, fields: seq<Field>, tail: string)
    requires '\n' !in line && line != "" && Headers.OneLineEach(fields)
    ensures var s := Messages.HeadText(line, fields) + tail;
            var e := |Messages.HeadText(line, fields)|;
            var text := LastText(line, fields);
            if HeaderEnd.CrRun(text, |text|) % 2 == 0 then HeaderEnd.IsFirstEnd(s, e) else HeaderEnd.Open(s, e)
  {
    hide HeaderEnd.CrRun, HeaderEnd.IsFirstEnd, Headers.Lines, LineAt, LastText;
    var after := Headers.Lines(fields) + CRLF + tail;
    var s := Messages.HeadText(line, fields) + tail;
    assert s == line + CRLF + after;
    assert s[0..] == s;
    NextLineAt(s, 0, line, after);
    assert HeaderEnd.Open(s, 0);
    hide HeaderEnd.Open;
    LineIsWithin(s, 0, line);
    PrintedHeadMatches(s, 0, line, fields, tail);
  }

  /** So it does for the head of a response the server prints, whose last line is the status line or a
      field. */
  lemma ResponseHeadEnds(status: string, fields: seq<Field>, content: string, close: bool, more: string)
    requires '\n' !in status && Headers.OneLineEach(Messages.AnsweredFields(fields, |content|, close))
    ensures var s := Messages.ResponseText(status, fields, content, close) + more;
            var e := |Messages.ResponseText(status, fields, content, close)| - |content|;
            var text := LastText("HTTP/1.1 " + status, Messages.AnsweredFields(fields, |content|, close));
            if HeaderEnd.CrRun(text, |text|) % 2 == 0 then HeaderEnd.IsFirstEnd(s, e) else HeaderEnd.Open(s, e)
  {
    hide Messages.AnsweredFields, HeaderEnd.CrRun, HeaderEnd.IsFirstEnd, HeaderEnd.Open, Messages.HeadText, Messages.ResponseText;
    var answered := Messages.AnsweredFields(fields, |content|, close);
    var head := Messages.HeadText("HTTP/1.1 " + status, answered);
    Messages.ResponseIsHeadAndContent(status, fields, content, close);
    assert head + content + more == head + (content + more);
    HeadTextEnds("HTTP/1.1 " + status, answered, content + more);
  }

  // ---------- what parsing leaves of a head ----------

  /** The lines of a head between its first line and the blank line of `blank` bytes that ends it at `e`. */
  function HeaderLines(s: string, e: nat, blank: nat): string
    requires blank < e <= |s|
  {
    GetLine(s[..e - blank]).value.rest
  }

  lemma Thirds(s: string, i: nat, j: nat)
    requires i <= j <= |s|
    ensures s[..j] == s[..i] + s[i..j] && s == s[..i] + (s[i..j] + s[j..])
  {
    assert s == s[..j] + s[j..];
  }

  lemma HeadLeaves(s: string, e: nat, blank: nat)
    requires blank < e <= |s| && s[e - blank - 1] == '\n' && (s[e - blank..e] == "\n" || s[e - blank..e] == CRLF)
    ensures var head := s[..e];
            && GetLine(s).Some? && GetLine(head).Some? && GetLine(s).value.text == GetLine(head).value.text
            && var (fields, skipped) := Headers.Header(GetLine(head).value.rest);
               && Headers.Header(GetLine(s).value.rest) == (fields, skipped + s[e..])
               && (skipped == "" <==> Headers.AllHaveColons(HeaderLines(s, e, blank)))
  {
    hide Headers.Header, GetLine;
    var front, end := s[..e - blank], s[e - blank..e];
    Thirds(s, e - blank, e);
    Headers.FirstLineOf(front, end + s[e..]);
    Headers.FirstLineOf(front, end);
    Headers.ParseLeaves(GetLine(front).value.rest, end, s[e..]);
  }

  /** What parsing a request makes of a buffer, `e` being where the delimiter ends: it finds in it what
      it finds in the head alone, and leaves what was read along behind what it leaves of the head,
      which is nothing if and only if every line between the request line and the empty one has a colon. */
  lemma RequestLeaves(s: string, e: nat)
    requires BlankEnd(s) == Some(e)
    ensures match Messages.ParsedRequest(s[..e])
            case None => Messages.ParsedRequest(s) == None
            case Some(Request(head, fields, skipped)) =>
              && Messages.ParsedRequest(s) == Some(Messages.Request(head, fields, skipped + s[e..]))
              && (skipped == "" <==> Headers.AllHaveColons(HeaderLines(s, e, 2)))
  {
    hide BlankEnd, Headers.Header, GetLine, Messages.RequestLine;
    HeadLeaves(s, e, 2);
  }

  /** How many bytes the blank line has that ends a head at `e`. */
  function BlankSize(s: string, e: nat): nat
    requires 2 <= e <= |s|
  {
    if s[e - 2] == '\n' then 1 else 2
  }

  /** The same on the client. */
  lemma ResponseLeaves(s: string, e: nat)
    requires HeaderEnd.IsFirstEnd(s, e)
    ensures 2 <= e <= |s| && BlankSize(s, e) < e
    ensures match Messages.ParsedResponse(s[..e])
            case None => Messages.ParsedResponse(s) == None
            case Some(Response(version, status, fields, skipped)) =>
              && Messages.ParsedResponse(s) == Some(Messages.Response(version, status, fields, skipped + s[e..]))
              && (skipped == "" <==> Headers.AllHaveColons(HeaderLines(s, e, BlankSize(s, e))))
  {
    BlankOf(s, e);
    hide HeaderEnd.IsFirstEnd, Headers.Header, GetLine, Messages.StatusLine;
    HeadLeaves(s, e, BlankSize(s, e));
  }

  lemma BlankOf(s: string, e: nat)
    requires HeaderEnd.IsFirstEnd(s, e)
    ensures 2 <= e <= |s|
    ensures var blank := BlankSize(s, e);
            && blank < e && s[e - blank - 1] == '\n'
            && (s[e - blank..e] == "\n" || s[e - blank..e] == CRLF)
  {
    HeaderEnd.EndIsPlain(s, e);
  }
}
