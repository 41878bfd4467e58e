/** `HttpHeader::parse` and the header lines that both sides print. */
module Headers {
  import opened Wrappers
  import opened Text
  import opened QueryString

  // ---------- parsing ----------

  /** The position behind the spaces at `start`, but at most the last character. */
  function ValueStart(line: string, start: nat): (r: nat)
    requires start <= |line|
    ensures start <= r <= |line|
    decreases |line| - start
  {
    if start + 1 < |line| && line[start] == ' ' then ValueStart(line, start + 1) else start
  }

  /** What a line contributes: `None` without a colon, else at most one field. */
  function LineField(line: string): Option<seq<Field>> {
    match Find(line, ':')
    case None => None
    case Some(k) =>
      var start := ValueStart(line, k + 1);
      if start < |line| then
        Some([Field(line[..k], line[start..if line[|line| - 1] == '\r' then |line| - 1 else |line|])])
      else Some([])
  }

  /** The fields of the lines up to the first line without a colon, and what follows that line. */
  function Header(s: string): (seq<Field>, string)
    decreases |s|
  {
    match GetLine(s)
    case None => ([], "")
    case Some(Line(text, rest)) =>
      match LineField(text)
      case None => ([], rest)
      case Some(found) =>
        var (more, left) := Header(rest);
        (found + more, left)
  }

  method ParseLine(line: string, paramEnd: nat) returns (found: seq<Field>)
    requires Find(line, ':') == Some(paramEnd)
    ensures LineField(line) == Some(found)
  {
    var valueStart := paramEnd + 1;
    while valueStart + 1 < |line| && line[valueStart] == ' '
      invariant paramEnd < valueStart <= |line|
      invariant ValueStart(line, valueStart) == ValueStart(line, paramEnd + 1)
      decreases |line| - valueStart
    {
      valueStart := valueStart + 1;
    }
    found := [];
    if valueStart < |line| {
      var count := |line| - valueStart - if line[|line| - 1] == '\r' then 1 else 0;
      found := [Field(line[..paramEnd], line[valueStart..valueStart + count])];
    }
  }

  method Parse(stream: string) returns (result: seq<Field>, rest: string)
    ensures (result, rest) == Header(stream)
  {
    hide LineField, Find;
    result, rest := [], stream;
    assert [] + Header(stream).0 == Header(stream).0;
    while true
      invariant Header(stream) == (result + Header(rest).0, Header(rest).1)
      decreases |rest|
    {
      var line := GetLine(rest);
      if line == None {
        assert result + [] == result;
        return;
      }
      ColonFound(line.value.text);
      rest := line.value.rest;
      var paramEnd := Find(line.value.text, ':');
      if paramEnd == None {
        assert result + [] == result;
        return;
      }
      var found := ParseLine(line.value.text, paramEnd.value);
      assert (result + found) + Header(rest).0 == result + (found + Header(rest).0);
      result := result + found;
    }
  }

  lemma ColonFound(line: string)
    ensures LineField(line) == None <==> Find(line, ':') == None
  {
  }

  /** A header line, with or without a CR at its end: the name up to the first colon, spaces skipped, and
      the value as it is; a line that ends at the colon is nothing, and one that ends in spaces is a value of
      one space. */
  lemma LineMeaning(name: string, spaces: string, value: string, cr: string)
    requires ':' !in name && (forall c :: c in spaces ==> c == ' ') && (cr == "" || cr == "\r")
    requires value == "" || (value[0] != ' ' && value[|value| - 1] != '\r')
    ensures LineField(name + ":" + spaces + (value + cr)) ==
            if value != "" || cr != "" then Some([Field(name, value)])
            else if spaces == "" then Some([]) else Some([Field(name, " ")])
  {
    hide ValueStart, Find;
    var front, rest := name + ":" + spaces, value + cr;
    ColonAt(name, spaces, rest);
    StartBehindSpaces(name, spaces, rest);
    if rest != "" {
      ValueAtEnd(front, value, cr);
    } else if spaces != "" {
      SpaceAtEnd(name, spaces);
      assert front + rest == front;
    }
  }

  lemma ColonAt(name: string, spaces: string, rest: string)
    requires ':' !in name
    ensures Find(name + ":" + spaces + rest, ':') == Some(|name|) && (name + ":" + spaces + rest)[..|name|] == name
  {
    FindAfter(name, ':', spaces + rest);
    assert name + ":" + spaces + rest == name + [':'] + (spaces + rest);
  }

  lemma ValueAtEnd(front: string, value: string, cr: string)
    requires (cr == "" || cr == "\r") && value + cr != "" && (value == "" || value[|value| - 1] != '\r')
    ensures var line := front + (value + cr);
            && (line[|line| - 1] == '\r' <==> cr == "\r")
            && line[|front|..|line| - |cr|] == value
  {
    assert (front + (value + cr))[|front + (value + cr)| - 1] == (value + cr)[|value + cr| - 1];
  }

  lemma SpaceAtEnd(name: string, spaces: string)
    requires spaces != "" && forall c :: c in spaces ==> c == ' '
    ensures var line := name + ":" + spaces; line[|line| - 1] == ' ' && line[|line| - 1..|line|] == " "
  {
    assert spaces[|spaces| - 1] in spaces;
  }

  lemma StartBehindSpaces(name: string, spaces: string, rest: string)
    requires (forall c :: c in spaces ==> c == ' ') && (rest == "" || rest[0] != ' ')
    ensures ValueStart(name + ":" + spaces + rest, |name| + 1) == |name| + 1 + |spaces| - if rest == "" && spaces != "" then 1 else 0
  {
    hide ValueStart;
    var line := name + ":" + spaces + rest;
    var k, n := |name| + 1, |name| + 1 + |spaces|;
    SpacesThere(name + ":", spaces, rest);
    SpacesPassed(line, k, if rest == "" && spaces != "" then n - 1 else n);
  }

  lemma SpacesThere(front: string, spaces: string, rest: string)
    requires forall c :: c in spaces ==> c == ' '
    ensures var line, n := front + spaces + rest, |front| + |spaces|;
            && (forall i :: |front| <= i < n ==> line[i] == ' ') && |line| == n + |rest| && (rest != "" ==> line[n] == rest[0])
  {
    assert forall i :: 0 <= i < |spaces| ==> spaces[i] in spaces;
  }

  lemma {:induction false} SpacesPassed(line: string, start: nat, n: nat)
    requires start <= n <= |line| && forall i :: start <= i < n ==> line[i] == ' '
    requires n + 1 >= |line| || line[n] != ' '
    requires start < n ==> n < |line|
    ensures ValueStart(line, start) == n
    decreases n - start
  {
    if start < n {
      SpacesPassed(line, start + 1, n);
    }
  }

  // ---------- printing ----------

  function FieldLine(f: Field): string {
    f.name + ": " + f.value + CRLF
  }

  function Lines(fields: seq<Field>): string {
    if fields == [] then "" else Lines(fields[..|fields| - 1]) + FieldLine(fields[|fields| - 1])
  }

  /** The same lines, taken from the front. */
  lemma {:induction false} LinesFront(fields: seq<Field>)
    requires fields != []
    ensures Lines(fields) == FieldLine(fields[0]) + Lines(fields[1..])
  {
    hide FieldLine;
    var first, last := FieldLine(fields[0]), FieldLine(fields[|fields| - 1]);
    if |fields| == 1 {
      assert fields[..0] == [] && fields[1..] == [];
      assert "" + last == last && last + "" == last;
    } else {
      var init := fields[..|fields| - 1];
      LinesFront(init);
      var middle := Lines(init[1..]);
      assert Lines(fields[1..]) == middle + last by {
        assert fields[1..][..|fields| - 2] == init[1..];
      }
      assert (first + middle) + last == first + (middle + last);
    }
  }

  // ---------- round trip ----------

  function Stripped(value: string): string {
    if value != "" && value[0] == ' ' then Stripped(value[1..]) else value
  }

  function StrippedFields(fields: seq<Field>): seq<Field> {
    if fields == [] then [] else [Field(fields[0].name, Stripped(fields[0].value))] + StrippedFields(fields[1..])
  }

  predicate NameOk(name: string) {
    ':' !in name && '\n' !in name
  }

  /** Fields that survive printing and parsing. */
  predicate FieldOk(f: Field) {
    NameOk(f.name) && '\n' !in f.value && (f.value == "" || f.value[0] != ' ')
  }

  ghost predicate OneLineEach(fields: seq<Field>) {
    forall f :: f in fields ==> NameOk(f.name) && '\n' !in f.value
  }

  ghost predicate AllOk(fields: seq<Field>) {
    forall f :: f in fields ==> FieldOk(f)
  }

  lemma {:induction false} SpacesSkipped(line: string, start: nat, value: string)
    requires start <= |line| && line[start..] == value + "\r"
    ensures line[ValueStart(line, start)..] == Stripped(value) + "\r"
    decreases |value|
  {
    assert line[start] == (value + "\r")[0];
    if value != "" && value[0] == ' ' {
      assert line[start + 1..] == value[1..] + "\r" by {
        assert line[start..][1..] == line[start + 1..] && (value + "\r")[1..] == value[1..] + "\r";
      }
      SpacesSkipped(line, start + 1, value[1..]);
    }
  }

  lemma PrintedLineParses(name: string, value: string)
    requires ':' !in name
    ensures LineField(name + ": " + value + "\r") == Some([Field(name, Stripped(value))])
  {
    var line := name + ": " + value + "\r";
    FindAfter(name, ':', " " + value + "\r");
    assert line == name + [':'] + (" " + value + "\r");
    assert line[|name| + 1..] == (" " + value) + "\r";
    SpacesSkipped(line, |name| + 1, " " + value);
    assert (" " + value)[1..] == value;
    var start := ValueStart(line, |name| + 1);
    assert |line[start..]| > 0;
    assert line[start..|line| - 1] == line[start..][..|line| - 1 - start] == Stripped(value);
    assert line[..|name|] == name;
  }

  lemma FieldLineIsALine(f: Field, after: string)
    requires NameOk(f.name) && '\n' !in f.value
    ensures GetLine(FieldLine(f) + after) == Some(Line(f.name + ": " + f.value + "\r", after))
  {
    GetLineOf(f.name + ": " + f.value + "\r", after);
    assert FieldLine(f) + after == (f.name + ": " + f.value + "\r") + "\n" + after;
  }

  lemma EmptyLineEnds(body: string)
    ensures Header(CRLF + body) == ([], body)
  {
    GetLineOf("\r", body);
    assert CRLF + body == "\r" + "\n" + body;
    FindNone("\r", ':');
  }

  lemma HeaderStep(f: Field, after: string)
    requires NameOk(f.name) && '\n' !in f.value
    ensures Header(FieldLine(f) + after) == ([Field(f.name, Stripped(f.value))] + Header(after).0, Header(after).1)
  {
    hide LineField;
    FieldLineIsALine(f, after);
    PrintedLineParses(f.name, f.value);
  }

  /** Printed fields that are one line each come back, their values without leading spaces, and
      everything behind the empty line is left. */
  lemma {:induction false} PrintedFieldsParse(fields: seq<Field>, body: string)
    requires OneLineEach(fields)
    ensures Header(Lines(fields) + CRLF + body) == (StrippedFields(fields), body)
    decreases fields
  {
    hide Header, NameOk, FieldLine;
    if fields == [] {
      assert "" + CRLF + body == CRLF + body;
      EmptyLineEnds(body);
    } else {
      LinesFront(fields);
      var after := Lines(fields[1..]) + CRLF + body;
      assert Lines(fields) + CRLF + body == FieldLine(fields[0]) + after;
      HeaderStep(fields[0], after);
      PrintedFieldsParse(fields[1..], body);
    }
  }

  lemma StrippedIsIdentity(value: string)
    ensures Stripped(value) == value <==> value == "" || value[0] != ' '
  {
    StrippedShrinks(value);
  }

  lemma {:induction false} StrippedShrinks(value: string)
    ensures |Stripped(value)| <= |value|
    ensures value != "" && value[0] == ' ' ==> |Stripped(value)| < |value|
  {
    if value != "" && value[0] == ' ' {
      StrippedShrinks(value[1..]);
    }
  }

  lemma {:induction false} StrippedFieldsAreSame(fields: seq<Field>)
    requires OneLineEach(fields)
    ensures StrippedFields(fields) == fields <==> AllOk(fields)
  {
    if fields != [] {
      StrippedIsIdentity(fields[0].value);
      StrippedFieldsAreSame(fields[1..]);
      assert fields == [fields[0]] + fields[1..];
      assert StrippedFields(fields)[1..] == StrippedFields(fields[1..]);
    }
  }

  lemma LineFieldIsOneLine(line: string)
    requires '\n' !in line && LineField(line).Some?
    ensures OneLineEach(LineField(line).value)
  {
    FindIsFirst(line, ':');
    assert forall i, j, c :: 0 <= i <= j <= |line| && c in line[i..j] ==> c in line;
  }

  /** Name and value of a parsed field were both part of what was parsed. */
  lemma {:induction false} FieldsWithin(s: string, f: Field)
    requires f in Header(s).0
    ensures |f.name| + |f.value| < |s|
    decreases |s|
  {
    hide LineField;
    var got := GetLine(s).value;
    LineFieldWithin(got.text);
    if f !in LineField(got.text).value {
      FieldsWithin(got.rest, f);
    }
  }

  lemma LineFieldWithin(line: string)
    ensures LineField(line).Some? ==> forall f :: f in LineField(line).value ==> |f.name| + |f.value| < |line|
  {
  }

  /** `parse` never yields a name with a colon or line feed, nor a value with a line feed. */
  lemma {:induction false} ParsedFields(s: string)
    ensures OneLineEach(Header(s).0)
    decreases |s|
  {
    hide LineField, NameOk;
    match GetLine(s)
    case None =>
    case Some(Line(text, rest)) =>
      match LineField(text)
      case None =>
      case Some(found) =>
        LineFieldIsOneLine(text);
        ParsedFields(rest);
  }

  /** Round trip: parsing printed header lines returns exactly the fields and leaves exactly the
      body if and only if no name has a colon or line feed and no value has a line feed or starts
      with a space. */
  lemma RoundTrip(fields: seq<Field>, body: string)
    ensures Header(Lines(fields) + CRLF + body) == (fields, body) <==> AllOk(fields)
  {
    hide Header, NameOk;
    ParsedFields(Lines(fields) + CRLF + body);
    if OneLineEach(fields) {
      PrintedFieldsParse(fields, body);
      StrippedFieldsAreSame(fields);
    }
  }

  // ---------- what parsing leaves ----------

  /** Every line has a colon. */
  predicate AllHaveColons(lines: string)
    decreases |lines|
  {
    lines == "" || (':' in GetLine(lines).value.text && AllHaveColons(GetLine(lines).value.rest))
  }

  predicate EndsLine(s: string) {
    s == "" || s[|s| - 1] == '\n'
  }

  lemma FirstLineOf(lines: string, after: string)
    requires lines != "" && EndsLine(lines)
    ensures var got := GetLine(lines).value;
            && lines == got.text + "\n" + got.rest && EndsLine(got.rest)
            && GetLine(lines + after) == Some(Line(got.text, got.rest + after))
  {
    assert lines[|lines| - 1] in lines;
    var got := GetLine(lines).value;
    GetLineOf(got.text, got.rest + after);
    assert lines + after == got.text + "\n" + (got.rest + after);
  }

  lemma BlankLineEnds(blank: string, extra: string)
    requires blank == "\n" || blank == CRLF
    ensures Header(blank + extra) == ([], extra)
  {
    if blank == "\n" {
      GetLineOf("", extra);
      assert "" + "\n" + extra == blank + extra;
      FindNone("", ':');
    } else {
      EmptyLineEnds(extra);
    }
  }

  lemma NextLine(s: string, text: string, rest: string)
    requires GetLine(s) == Some(Line(text, rest))
    ensures Header(s) == match LineField(text)
                         case None => ([], rest)
                         case Some(found) => (found + Header(rest).0, Header(rest).1)
    ensures LineField(text) == None <==> ':' !in text
  {
    if ':' in text {
      FindIsFirst(text, ':');
    } else {
      FindNone(text, ':');
    }
    ColonFound(text);
    hide LineField;
  }

  /** Parsing header lines and the blank line behind them gives the same fields whatever follows, and
      leaves what it leaves without that, and that. It leaves nothing of the head if and only if every
      line has a colon: otherwise the lines behind the first one without. */
  lemma {:induction false} ParseLeaves(lines: string, blank: string, extra: string)
    requires EndsLine(lines) && (blank == "\n" || blank == CRLF)
    ensures Header(lines + (blank + extra)) == (Header(lines + blank).0, Header(lines + blank).1 + extra)
    ensures Header(lines + blank).1 == "" <==> AllHaveColons(lines)
    decreases |lines|
  {
    hide Header, GetLine, LineField;
    var after := blank + extra;
    if lines == "" {
      BlankLineEnds(blank, extra);
      BlankLineEnds(blank, "");
      assert lines + after == after && lines + blank == blank + "";
      assert "" + extra == extra;
    } else {
      var got := GetLine(lines).value;
      FirstLineOf(lines, after);
      FirstLineOf(lines, blank);
      NextLine(lines + after, got.text, got.rest + after);
      NextLine(lines + blank, got.text, got.rest + blank);
      if ':' in got.text {
        ParseLeaves(got.rest, blank, extra);
      } else {
        assert (got.rest + blank) + extra == got.rest + after;
      }
    }
  }
}
