/** What the body readers of client and server compute, as functions of the bytes and of how much is
    read ahead: `line` is what the buffer for size lines holds, `wire` the bytes still to come before
    the connection ends, and `offers` what the network makes of each choice it has. */
module BodySpec {
  import opened Wrappers
  import opened Text

  // ---------- size lines ----------

  /** The position just after the first CRLF. */
  function CrlfEnd(s: string): (r: Option<nat>)
    ensures r.Some? ==> 2 <= r.value <= |s| && s[r.value - 2] == '\r' && s[r.value - 1] == '\n'
  {
    if |s| < 2 then None
    else if s[0] == '\r' && s[1] == '\n' then Some(2)
    else
      match CrlfEnd(s[1..])
      case None => None
      case Some(k) => Some(k + 1)
  }

  lemma {:induction false} CrlfEndOf(line: string, after: string)
    requires '\n' !in line
    ensures CrlfEnd(line + CRLF + after) == Some(|line| + 2)
  {
    var tail := CRLF + after;
    assert line + CRLF + after == line + tail;
    if line != "" {
      CrlfEndOf(line[1..], after);
      assert line[1..] + CRLF + after == line[1..] + tail;
      assert (line + tail)[1..] == line[1..] + tail;
      if |line| > 1 {
        assert (line + tail)[1] == line[1] && line[1] in line;
      } else {
        assert (line + tail)[1] == tail[0];
      }
    }
  }

  /** A front part of `s` has the first CRLF of `s` if it reaches that far, else none. */
  lemma {:induction false} CrlfEndPrefix(a: string, s: string)
    requires a <= s
    ensures CrlfEnd(a) == if CrlfEnd(s).Some? && CrlfEnd(s).value <= |a| then CrlfEnd(s) else None
  {
    if |a| >= 2 && !(a[0] == '\r' && a[1] == '\n') {
      CrlfEndPrefix(a[1..], s[1..]);
    }
  }

  /** The first LF is at or before the LF of the first CRLF. */
  lemma FirstLfWithin(s: string, e: nat)
    requires 0 < e <= |s| && s[e - 1] == '\n'
    ensures GetLine(s).Some? && |GetLine(s).value.text| < e
    ensures s == GetLine(s).value.text + "\n" + GetLine(s).value.rest
  {
    var got := GetLine(s).value;
    assert s[e - 1] in s;
    assert forall i :: 0 <= i < |got.text| ==> s[i] == got.text[i] && got.text[i] in got.text;
  }

  datatype SizeLine =
    | Size(size: nat, end: nat, surplus: nat, rest: string)
    | BadSize                         // std::stoul throws
    | LineTooLong                     // no CRLF within the capacity of the line buffer
    | Ended                           // the connection ends before a CRLF

  /** The size line at the front of `stream`, read through a buffer of `cap` bytes. The search stops
      behind the first CRLF, at `end`; `getline` stops behind the first LF, and `rest` is what follows
      that. They differ by `surplus` bytes if the line holds a bare LF. */
  function ReadSizeLine(stream: string, cap: nat): (r: SizeLine)
    ensures r.Size? ==>
              && r.size < ULONG_LIMIT && 2 <= r.end <= Min(cap, |stream|)
              && |r.rest| == |stream| - r.end + r.surplus && |r.rest| < |stream|
  {
    match CrlfEnd(stream[..Min(cap, |stream|)])
    case None => if |stream| < cap then Ended else LineTooLong
    case Some(e) =>
      FirstLfWithin(stream, e);
      var got := GetLine(stream).value;
      match Stoul(got.text, 16)
      case None => BadSize
      case Some(n) => Size(n, e, e - (|got.text| + 1), got.rest)
  }

  /** The surplus of a bare LF is at least a CRLF, and ends with one. */
  lemma SurplusEndsInCrlf(stream: string, cap: nat)
    requires ReadSizeLine(stream, cap).Size? && ReadSizeLine(stream, cap).surplus > 0
    ensures var l := ReadSizeLine(stream, cap);
            2 <= l.surplus <= |l.rest| && l.rest[l.surplus - 2] == '\r' && l.rest[l.surplus - 1] == '\n'
  {
    hide Stoul, CrlfEnd, GetLine;
    var l := ReadSizeLine(stream, cap);
    FirstLfWithin(stream, l.end);
    var text := GetLine(stream).value.text;
    assert stream[..Min(cap, |stream|)][l.end - 2] == stream[l.end - 2];
    assert stream[|text|] == '\n' && stream[|text| + 1..] == l.rest;
  }

  /** The line is read through a buffer of `low` bytes as through a larger one of `cap` bytes: it ends
      within the smaller, or is unfinished in the smaller, or too long for the larger. */
  predicate CapFree(stream: string, low: nat, cap: nat) {
    match CrlfEnd(stream[..Min(cap, |stream|)])
    case Some(e) => e <= low
    case None => |stream| < low || |stream| >= cap
  }

  lemma SameLineIff(stream: string, low: nat, cap: nat)
    requires low <= cap
    ensures ReadSizeLine(stream, low) == ReadSizeLine(stream, cap) <==> CapFree(stream, low, cap)
  {
    hide CrlfEnd, GetLine, Stoul;
    CrlfEndPrefix(stream[..Min(low, |stream|)], stream[..Min(cap, |stream|)]);
  }

  /** It is then read so through every buffer in between. */
  lemma CapFreeBetween(stream: string, low: nat, cap: nat, high: nat)
    requires low <= cap <= high && CapFree(stream, low, high)
    ensures ReadSizeLine(stream, cap) == ReadSizeLine(stream, high)
  {
    hide CrlfEnd, ReadSizeLine;
    SameLineIff(stream, cap, high);
  }

  // ---------- taking a chunk out of buffer and socket ----------

  datatype ChunkTaken =
    | Taken(data: string, line: string, wire: string)
    | CutOff(data: string)   // the connection ended first
    | Overflow               // streambuf::prepare throws: the data does not fit

  /** The three branches behind the size line: `line` is the buffered bytes, `wire` those to come, and
      `remaining` how many transferred bytes `getline` left in front. What is in the buffer is moved,
      what is missing is read from the socket as far as there is room, and two bytes are dropped. */
  function TakeFrom(line: string, wire: string, size: nat, remaining: nat, room: nat): (t: ChunkTaken)
    requires remaining <= |line|
    ensures !t.Overflow? ==> |t.data| <= room
    ensures t.Taken? ==> |t.line| <= |line| && |t.line| + |t.wire| <= |line| + |wire|
  {
    var additional := |line| - remaining;
    var moved := line[..Min(size, additional)];
    var left := line[Min(size, additional)..];
    if |moved| > room then Overflow
    else if size > additional then
      var missing := Min(size - additional, room - additional);
      if |wire| < missing + 2 then CutOff(moved + wire[..Min(missing, |wire|)])
      else Taken(moved + wire[..missing], left, wire[missing + 2..])
    else if size + 2 > additional then
      var missing := size + 2 - additional;
      var kept := if missing == 1 && left != "" then left[1..] else left;
      if |wire| < missing then CutOff(moved) else Taken(moved, kept, wire[missing..])
    else Taken(moved, left[2..], wire)
  }

  /** The data and the two bytes to drop are taken from `rest`, all bytes behind the first LF, with the
      `surplus` bytes left out at a position that is the read-ahead: those stay behind and are read as
      the next size line. */
  ghost predicate Around(t: ChunkTaken, rest: string, surplus: nat, ahead: nat, n: nat)
    requires surplus + ahead <= |rest|
  {
    var p, q := Min(ahead, n), Min(ahead, n + 2);
    && !t.Overflow?
    && (t.Taken? <==> |rest| >= surplus + n + 2)
    && t.data == rest[..p] + rest[surplus + p..Min(surplus + n, |rest|)]
    && (t.Taken? ==> t.line + t.wire == rest[q..q + surplus] + rest[surplus + n + 2..])
  }

  /** What the branches amount to: the data does not fit, or the chunk is taken around the surplus. */
  lemma TakenAroundSurplus(rest: string, surplus: nat, ahead: nat, size: nat, room: nat)
    requires surplus + ahead <= |rest|
    ensures var t := TakeFrom(rest[..surplus + ahead], rest[surplus + ahead..], size, surplus, room);
            if Min(size, ahead) > room then t == Overflow else Around(t, rest, surplus, ahead, Min(size, room))
  {
    if Min(size, ahead) <= room {
      if size > ahead {
        MissingIsRead(rest, surplus, ahead, size, room);
      } else if size + 2 > ahead {
        EndIsMissing(rest, surplus, ahead, size, room);
      } else {
        AllIsBuffered(rest, surplus, ahead, size, room);
      }
    }
  }

  lemma MissingIsRead(rest: string, surplus: nat, ahead: nat, size: nat, room: nat)
    requires surplus + ahead <= |rest| && ahead < size && ahead <= room
    ensures Around(TakeFrom(rest[..surplus + ahead], rest[surplus + ahead..], size, surplus, room), rest, surplus, ahead, Min(size, room))
  {
    hide TakeFrom, Around;
    if |rest| >= surplus + Min(size, room) + 2 {
      MissingArrives(rest, surplus, ahead, size, room);
    } else {
      MissingIsCutOff(rest, surplus, ahead, size, room);
    }
  }

  lemma MissingArrives(rest: string, surplus: nat, ahead: nat, size: nat, room: nat)
    requires surplus + ahead <= |rest| && ahead < size && ahead <= room && |rest| >= surplus + Min(size, room) + 2
    ensures Around(TakeFrom(rest[..surplus + ahead], rest[surplus + ahead..], size, surplus, room), rest, surplus, ahead, Min(size, room))
  {
    hide TakeFrom;
    var line, wire, n := rest[..surplus + ahead], rest[surplus + ahead..], Min(size, room);
    ReadsMissing(line, wire, size, surplus, room);
    CutAt(rest, surplus, ahead, n);
    assert TakeFrom(line, wire, size, surplus, room)
        == Taken(rest[..ahead] + rest[surplus + ahead..surplus + n], rest[ahead..ahead + surplus], rest[surplus + n + 2..]);
  }

  lemma CutAt(rest: string, surplus: nat, ahead: nat, n: nat)
    requires ahead <= n && surplus + n + 2 <= |rest|
    ensures var line, wire := rest[..surplus + ahead], rest[surplus + ahead..];
            && line[..ahead] == rest[..ahead] && line[ahead..] == rest[ahead..ahead + surplus]
            && wire[..n - ahead] == rest[surplus + ahead..surplus + n] && wire[n - ahead + 2..] == rest[surplus + n + 2..]
  {
  }

  lemma ReadsMissing(line: string, wire: string, size: nat, remaining: nat, room: nat)
    requires remaining <= |line| && |line| - remaining < size && |line| - remaining <= room
    ensures var additional := |line| - remaining;
            var missing := Min(size, room) - additional;
            |wire| >= missing + 2 ==>
              TakeFrom(line, wire, size, remaining, room) == Taken(line[..additional] + wire[..missing], line[additional..], wire[missing + 2..])
  {
  }

  lemma MissingIsCutOff(rest: string, surplus: nat, ahead: nat, size: nat, room: nat)
    requires surplus + ahead <= |rest| < surplus + Min(size, room) + 2 && ahead < size && ahead <= room
    ensures Around(TakeFrom(rest[..surplus + ahead], rest[surplus + ahead..], size, surplus, room), rest, surplus, ahead, Min(size, room))
  {
    hide TakeFrom;
    var line, wire, i := rest[..surplus + ahead], rest[surplus + ahead..], Min(surplus + Min(size, room), |rest|);
    assert line[..ahead] == rest[..ahead];
    assert wire[..i - surplus - ahead] == rest[surplus + ahead..i];
    MissesSome(line, wire, size, surplus, room);
    assert TakeFrom(line, wire, size, surplus, room) == CutOff(rest[..ahead] + rest[surplus + ahead..i]);
  }

  lemma MissesSome(line: string, wire: string, size: nat, remaining: nat, room: nat)
    requires remaining <= |line| && |line| - remaining < size && |line| - remaining <= room
    ensures var additional := |line| - remaining;
            var missing := Min(size, room) - additional;
            |wire| < missing + 2 ==>
              TakeFrom(line, wire, size, remaining, room) == CutOff(line[..additional] + wire[..Min(missing, |wire|)])
  {
  }

  lemma EndIsMissing(rest: string, surplus: nat, ahead: nat, size: nat, room: nat)
    requires surplus + ahead <= |rest| && size <= ahead < size + 2 && size <= room
    ensures Around(TakeFrom(rest[..surplus + ahead], rest[surplus + ahead..], size, surplus, room), rest, surplus, ahead, size)
  {
    hide TakeFrom;
    var line, wire := rest[..surplus + ahead], rest[surplus + ahead..];
    ReadsEnd(line, wire, size, surplus, room);
    assert line[..size] == rest[..size] == rest[..size] + rest[surplus + size..surplus + size];
    assert line[ahead..] == rest[ahead..ahead + surplus];
    if surplus + size + 2 <= |rest| {
      assert wire[size + 2 - ahead..] == rest[surplus + size + 2..];
    }
  }

  lemma ReadsEnd(line: string, wire: string, size: nat, remaining: nat, room: nat)
    requires remaining <= |line| && size <= |line| - remaining < size + 2 && size <= room
    ensures var missing := size + 2 - (|line| - remaining);
            TakeFrom(line, wire, size, remaining, room) ==
            if |wire| < missing then CutOff(line[..size]) else Taken(line[..size], line[|line| - remaining..], wire[missing..])
  {
    var additional := |line| - remaining;
    assert line[size..][0..] == line[size..];
    if additional == size + 1 {
      assert line[size..][1..] == line[size + 1..];
    }
  }

  lemma AllIsBuffered(rest: string, surplus: nat, ahead: nat, size: nat, room: nat)
    requires surplus + ahead <= |rest| && size + 2 <= ahead && size <= room
    ensures Around(TakeFrom(rest[..surplus + ahead], rest[surplus + ahead..], size, surplus, room), rest, surplus, ahead, size)
  {
    var line, wire, j := rest[..surplus + ahead], rest[surplus + ahead..], surplus + size + 2;
    assert line[..size] == rest[..size] == rest[..size] + rest[surplus + size..surplus + size];
    assert line[size..][2..] == rest[size + 2..surplus + ahead];
    Rest(rest, size + 2, surplus + ahead);
    Rest(rest, size + 2, j);
  }

  lemma Rest(s: string, i: nat, j: nat)
    requires i <= j <= |s|
    ensures s[i..j] + s[j..] == s[i..]
  {
  }

  /** The chunk announced by the size line `l`, taken when `ahead` bytes behind its CRLF are buffered. */
  function ChunkAt(l: SizeLine, ahead: nat, room: nat): (t: ChunkTaken)
    requires l.Size? && l.surplus + ahead <= |l.rest|
    ensures !t.Overflow? ==> |t.data| <= room
    ensures t.Taken? ==> |t.line| <= l.surplus + ahead && |t.line| + |t.wire| <= |l.rest|
  {
    TakeFrom(l.rest[..l.surplus + ahead], l.rest[l.surplus + ahead..], l.size, l.surplus, room)
  }

  lemma ChunkAround(l: SizeLine, ahead: nat, room: nat)
    requires l.Size? && l.surplus + ahead <= |l.rest|
    ensures if Min(l.size, ahead) > room then ChunkAt(l, ahead, room) == Overflow
            else Around(ChunkAt(l, ahead, room), l.rest, l.surplus, ahead, Min(l.size, room))
  {
    hide TakeFrom, Around;
    TakenAroundSurplus(l.rest, l.surplus, ahead, l.size, room);
  }

  /** Without a bare LF, a chunk that fits, or whose read-ahead does, is the bytes behind the size line. */
  lemma TakenInOrder(l: SizeLine, ahead: nat, room: nat)
    requires l.Size? && l.surplus == 0 && ahead <= |l.rest| && (l.size <= room || ahead <= room)
    ensures var t, n := ChunkAt(l, ahead, room), Min(l.size, room);
            && !t.Overflow?
            && (t.Taken? <==> |l.rest| >= n + 2)
            && t.data == l.rest[..Min(n, |l.rest|)]
            && (t.Taken? ==> t.line + t.wire == l.rest[n + 2..])
  {
    hide ChunkAt;
    ChunkAround(l, ahead, room);
    var n := Min(l.size, room);
    Rejoin(l.rest, Min(ahead, n), Min(n, |l.rest|));
    assert forall q: nat :: q <= |l.rest| ==> l.rest[q..q] == "";
  }

  lemma Rejoin(s: string, i: nat, j: nat)
    requires i <= j <= |s|
    ensures s[..i] + s[i..j] == s[..j]
  {
  }

  /** Two outcomes of a chunk that differ at most in how much is buffered afterwards. */
  predicate Same(t: ChunkTaken, u: ChunkTaken) {
    match t
    case Overflow => u.Overflow?
    case CutOff(data) => u == t
    case Taken(data, line, wire) => u.Taken? && u.data == data && u.line + u.wire == line + wire
  }

  /** Nothing can be read ahead, or no bare LF is in the size line and either the chunk or all that can
      be read ahead, `most` bytes, fits the room. */
  predicate Steady(l: SizeLine, most: nat, room: nat)
    requires l.Size?
  {
    most == 0 || (l.surplus == 0 && (l.size <= room || most <= room))
  }

  lemma SteadyIsSame(l: SizeLine, most: nat, room: nat, a: nat, b: nat)
    requires l.Size? && l.surplus + most <= |l.rest| && Steady(l, most, room) && a <= most && b <= most
    ensures Same(ChunkAt(l, a, room), ChunkAt(l, b, room))
  {
    hide ChunkAt;
    if most > 0 {
      TakenInOrder(l, a, room);
      TakenInOrder(l, b, room);
    }
  }

  /** With a bare LF, one byte read ahead already changes what is left for the next size line. */
  lemma SurplusMoves(l: SizeLine, room: nat)
    requires l.Size? && l.size > 0 && room > 0 && |l.rest| >= l.surplus + Min(l.size, room) + 2
    requires l.surplus >= 2 && l.rest[l.surplus - 2] == '\r' && l.rest[l.surplus - 1] == '\n'
    ensures !Same(ChunkAt(l, 0, room), ChunkAt(l, 1, room))
  {
    hide ChunkAt;
    ChunkAround(l, 0, room);
    ChunkAround(l, 1, room);
    ShiftedDiffers(l.rest, l.surplus, l.rest[l.surplus + Min(l.size, room) + 2..]);
  }

  lemma ShiftedDiffers(rest: string, r: nat, tail: string)
    requires 2 <= r < |rest| && rest[r - 2] == '\r' && rest[r - 1] == '\n'
    ensures rest[0..0 + r] + tail != rest[1..1 + r] + tail
  {
    assert (rest[0..0 + r] + tail)[r - 2] == '\r' && (rest[1..1 + r] + tail)[r - 2] == '\n';
  }

  /** Where more than the room can be read ahead, a chunk that does not fit throws or is cut down. */
  lemma TooMuchOverflows(l: SizeLine, most: nat, room: nat)
    requires l.Size? && l.surplus + most <= |l.rest| && l.size > room && most > room
    ensures ChunkAt(l, most, room) == Overflow && !Same(ChunkAt(l, 0, room), ChunkAt(l, most, room))
  {
    hide ChunkAt;
    ChunkAround(l, 0, room);
    ChunkAround(l, most, room);
  }

  /** How much can be buffered behind the CRLF of the first size line of `stream`. */
  function MostAhead(stream: string, cap: nat): (most: nat)
    requires ReadSizeLine(stream, cap).Size?
    ensures ReadSizeLine(stream, cap).surplus + most <= |ReadSizeLine(stream, cap).rest|
  {
    Min(cap, |stream|) - ReadSizeLine(stream, cap).end
  }

  /** Fragmentation, exactly: a chunk that arrives whole is taken in the same way however much is read
      ahead if and only if it is steady. */
  lemma SameIffSteady(stream: string, cap: nat, room: nat, l: SizeLine, most: nat)
    requires l == ReadSizeLine(stream, cap) && l.Size? && most == MostAhead(stream, cap)
    requires l.size > 0 && |l.rest| >= l.surplus + Min(l.size, room) + 2
    ensures (forall a: nat, b: nat :: a <= most && b <= most ==> Same(ChunkAt(l, a, room), ChunkAt(l, b, room)))
       <==> Steady(l, most, room)
  {
    hide ReadSizeLine, ChunkAt, Same;
    if l.surplus > 0 {
      SurplusEndsInCrlf(stream, cap);
    }
    if Steady(l, most, room) {
      forall a: nat, b: nat | a <= most && b <= most ensures Same(ChunkAt(l, a, room), ChunkAt(l, b, room)) {
        SteadyIsSame(l, most, room, a, b);
      }
    } else if l.size > room && most > room {
      TooMuchOverflows(l, most, room);
      assert !Same(ChunkAt(l, 0, room), ChunkAt(l, most, room));
    } else {
      SurplusMoves(l, room);
      assert !Same(ChunkAt(l, 0, room), ChunkAt(l, 1, room));
    }
  }

  /** The bytes a chunk contributes. */
  function Data(t: ChunkTaken): string {
    if t.Overflow? then "" else t.data
  }

  /** The data alone, for a chunk that fits: it is the same however much is read ahead if and only if
      the bytes behind the bare LF repeat with the surplus as their period. */
  lemma SameDataIffPeriodic(l: SizeLine, most: nat, room: nat)
    requires l.Size? && l.surplus + most <= |l.rest| && l.size <= room && |l.rest| >= l.surplus + l.size + 2
    ensures (forall a: nat, b: nat :: a <= most && b <= most ==> Data(ChunkAt(l, a, room)) == Data(ChunkAt(l, b, room)))
       <==> l.rest[..Min(l.size, most)] == l.rest[l.surplus..l.surplus + Min(l.size, most)]
  {
    hide ChunkAt;
    var p := Min(l.size, most);
    var plain := l.rest[l.surplus..l.surplus + l.size];
    PlainIffFront(l, 0, room);
    PlainIffFront(l, most, room);
    assert l.rest[..0] == l.rest[l.surplus..l.surplus + 0];
    assert (forall a: nat, b: nat :: a <= most && b <= most ==> Data(ChunkAt(l, a, room)) == Data(ChunkAt(l, b, room))) ==>
             Data(ChunkAt(l, most, room)) == Data(ChunkAt(l, 0, room));
    if l.rest[..p] == l.rest[l.surplus..l.surplus + p] {
      forall a: nat | a <= most ensures Data(ChunkAt(l, a, room)) == plain {
        PlainIffFront(l, a, room);
        var m := Min(l.size, a);
        assert l.rest[..m] == l.rest[..p][..m] && l.rest[l.surplus..l.surplus + p][..m] == l.rest[l.surplus..l.surplus + m];
      }
    }
  }

  lemma PlainIffFront(l: SizeLine, a: nat, room: nat)
    requires l.Size? && l.surplus + a <= |l.rest| && l.size <= room && |l.rest| >= l.surplus + l.size + 2
    ensures Data(ChunkAt(l, a, room)) == l.rest[l.surplus..l.surplus + l.size]
       <==> l.rest[..Min(l.size, a)] == l.rest[l.surplus..l.surplus + Min(l.size, a)]
  {
    hide ChunkAt, Data;
    DataAround(l, a, room);
    FrontDecides(l.rest, l.surplus, l.size, Min(l.size, a));
  }

  lemma DataAround(l: SizeLine, a: nat, room: nat)
    requires l.Size? && l.surplus + a <= |l.rest| && l.size <= room && |l.rest| >= l.surplus + l.size + 2
    ensures var m := Min(l.size, a);
            Data(ChunkAt(l, a, room)) == l.rest[..m] + l.rest[l.surplus + m..l.surplus + l.size]
  {
    hide ChunkAt;
    ChunkAround(l, a, room);
  }

  lemma FrontDecides(rest: string, r: nat, n: nat, m: nat)
    requires m <= n && r + n <= |rest|
    ensures rest[..m] + rest[r + m..r + n] == rest[r..r + n] <==> rest[..m] == rest[r..r + m]
  {
    var left := rest[..m] + rest[r + m..r + n];
    assert rest[r..r + m] + rest[r + m..r + n] == rest[r..r + n];
    if left == rest[r..r + n] {
      assert left[..m] == rest[..m] && rest[r..r + n][..m] == rest[r..r + m];
    }
  }

  // ---------- choices of the network ----------

  /** How many bytes behind the CRLF at `end` are buffered once it has been found: no read takes place
      if it was among the `had` bytes, else the network decides, up to a total of `most`. */
  function Ahead(had: nat, end: nat, most: nat, offers: seq<nat>): (ahead: nat)
    requires had <= most && end <= most
    ensures end + ahead <= most
  {
    if end <= had then had - end else Min(if offers == [] then 0 else offers[0], most - end)
  }

  function Later(offers: seq<nat>): seq<nat> {
    if offers == [] then [] else offers[1..]
  }

  // ---------- the server ----------

  datatype ServerOutcome =
    | Complete(body: string, rest: string)   // body handed to the resource; `rest` lies behind, in buffer or socket
    | Malformed                              // protocol_error
    | TooLarge                               // 413 and message_size
    | NotFound                               // size line longer than its buffer
    | Lost                                   // connection ended
    | Thrown                                 // an exception left the handler

  /** The server's chunked reader: `body` is what it holds already, `max` the limit of its buffer. The
      sum with the chunk size is taken modulo 2^64. */
  function ServerDecode(line: string, wire: string, cap: nat, body: string, max: nat, offers: seq<nat>): ServerOutcome
    requires |line| <= cap && |body| <= max
    decreases |line| + |wire|
  {
    var stream := line + wire;
    var l := ReadSizeLine(stream, cap);
    match l
    case BadSize => Malformed
    case LineTooLong => NotFound
    case Ended => Lost
    case Size(n, end, surplus, rest) =>
      if n == 0 then Complete(body, rest)
      else if (n + |body|) % ULONG_LIMIT > max then TooLarge
      else
        match ChunkAt(l, Ahead(|line|, end, Min(cap, |stream|), offers), max - |body|)
        case Overflow => Thrown
        case CutOff(_) => Lost
        case Taken(data, line', wire') => ServerDecode(line', wire', cap, body + data, max, Later(offers))
  }

  /** What the socket has not returned when the body is complete: `rest` without its front part in the
      line buffer, which is discarded with it. `held` is the size of the body so far. */
  function ServerUnread(line: string, wire: string, cap: nat, held: nat, max: nat, offers: seq<nat>): string
    requires |line| <= cap && held <= max
    decreases |line| + |wire|
  {
    var stream := line + wire;
    var l := ReadSizeLine(stream, cap);
    if !l.Size? then ""
    else
      var ahead := Ahead(|line|, l.end, Min(cap, |stream|), offers);
      if l.size == 0 then l.rest[l.surplus + ahead..]
      else if (l.size + held) % ULONG_LIMIT > max then ""
      else
        match ChunkAt(l, ahead, max - held)
        case Taken(data, line', wire') => ServerUnread(line', wire', cap, held + |data|, max, Later(offers))
        case _ => ""
  }

  /** One pass of the server's reader, from a size line to the next. */
  lemma ServerPass(line: string, wire: string, cap: nat, body: string, max: nat, offers: seq<nat>, l: SizeLine)
    requires |line| <= cap && |body| <= max && l == ReadSizeLine(line + wire, cap)
    ensures var outcome, unread := ServerDecode(line, wire, cap, body, max, offers), ServerUnread(line, wire, cap, |body|, max, offers);
            match l
            case BadSize => outcome == Malformed
            case LineTooLong => outcome == NotFound
            case Ended => outcome == Lost
            case Size(n, end, surplus, rest) =>
              var ahead := Ahead(|line|, end, Min(cap, |line + wire|), offers);
              && surplus + ahead <= |rest|
              && if n == 0 then outcome == Complete(body, rest) && unread == rest[surplus + ahead..]
                 else if (n + |body|) % ULONG_LIMIT > max then outcome == TooLarge
                 else
                   var t := ChunkAt(l, ahead, max - |body|);
                   && (t.Overflow? ==> outcome == Thrown)
                   && (t.CutOff? ==> outcome == Lost)
                   && (t.Taken? ==>
                         && |t.line| <= cap && |body + t.data| <= max
                         && outcome == ServerDecode(t.line, t.wire, cap, body + t.data, max, Later(offers))
                         && unread == ServerUnread(t.line, t.wire, cap, |body + t.data|, max, Later(offers)))
  {
    hide ReadSizeLine, ChunkAt;
  }

  lemma {:induction false} UnreadIsBehind(line: string, wire: string, cap: nat, body: string, max: nat, offers: seq<nat>)
    requires |line| <= cap && |body| <= max && ServerDecode(line, wire, cap, body, max, offers).Complete?
    ensures var rest, unread := ServerDecode(line, wire, cap, body, max, offers).rest, ServerUnread(line, wire, cap, |body|, max, offers);
            |rest| - cap <= |unread| <= |rest| && unread == rest[|rest| - |unread|..]
    decreases |line| + |wire|
  {
    hide ReadSizeLine, ChunkAt;
    var l := ReadSizeLine(line + wire, cap);
    var ahead := Ahead(|line|, l.end, Min(cap, |line + wire|), offers);
    if l.size != 0 {
      var t := ChunkAt(l, ahead, max - |body|);
      UnreadIsBehind(t.line, t.wire, cap, body + t.data, max, Later(offers));
    } else {
      LessThanCap(line + wire, cap, ahead);
    }
  }

  lemma LessThanCap(stream: string, cap: nat, ahead: nat)
    requires ReadSizeLine(stream, cap).Size? && ReadSizeLine(stream, cap).end + ahead <= cap
    ensures ReadSizeLine(stream, cap).surplus + ahead <= cap
  {
    hide Stoul, CrlfEnd, GetLine;
  }

  /** For buffers of `low` up to `high` bytes: every size line on the way is read alike, and every chunk
      that is taken is steady in the largest; `held` is the size of the body so far. */
  predicate ServerSteady(stream: string, low: nat, high: nat, held: nat, max: nat)
    requires held <= max
    decreases |stream|
  {
    var l := ReadSizeLine(stream, high);
    CapFree(stream, low, high) &&
    (l.Size? && l.size > 0 && (l.size + held) % ULONG_LIMIT <= max ==>
      && Steady(l, MostAhead(stream, high), max - held)
      && match ChunkAt(l, 0, max - held)
         case Taken(data, line, wire) => ServerSteady(line + wire, low, high, held + |data|, max)
         case _ => true)
  }

  /** The outcome on the server, errors included, is the same for every splitting into reads, every
      read-ahead at the start and every capacity in the range, if the stream is steady for the range. */
  lemma {:induction false} ServerReadsDoNotMatter(line: string, wire: string, offers: seq<nat>, cap: nat,
                                                  line': string, wire': string, offers': seq<nat>, cap': nat,
                                                  low: nat, high: nat, body: string, max: nat)
    requires |line| <= cap && |line'| <= cap' && |body| <= max && line + wire == line' + wire'
    requires low <= cap <= high && low <= cap' <= high && ServerSteady(line + wire, low, high, |body|, max)
    ensures ServerDecode(line, wire, cap, body, max, offers) == ServerDecode(line', wire', cap', body, max, offers')
    decreases |line| + |wire|
  {
    hide ReadSizeLine, ChunkAt, Steady, CapFree, ServerDecode, ServerUnread;
    var stream := line + wire;
    var l := ReadSizeLine(stream, high);
    CapFreeBetween(stream, low, cap, high);
    CapFreeBetween(stream, low, cap', high);
    ServerPass(line, wire, cap, body, max, offers, l);
    ServerPass(line', wire', cap', body, max, offers', l);
    if l.Size? && l.size != 0 && (l.size + |body|) % ULONG_LIMIT <= max {
      var most, room := MostAhead(stream, high), max - |body|;
      var a, a' := Ahead(|line|, l.end, Min(cap, |stream|), offers), Ahead(|line'|, l.end, Min(cap', |stream|), offers');
      SteadyIsSame(l, most, room, a, a');
      SteadyIsSame(l, most, room, 0, a);
      var t, t' := ChunkAt(l, a, room), ChunkAt(l, a', room);
      if t.Taken? {
        ServerReadsDoNotMatter(t.line, t.wire, Later(offers), cap, t'.line, t'.wire, Later(offers'), cap', low, high, body + t.data, max);
      }
    }
  }

  // ---------- the client ----------

  datatype Error = NoError | ProtocolError | TransportError

  /** One call of the request callback: the content of the response part, whether `content.end`
      is set, and the error code. */
  datatype Delivery = Delivery(content: string, last: bool, error: Error)

  datatype ClientEnd =
    | Finished(rest: string)   // the zero-size line was read
    | Stopped                  // an error was reported
    | Aborted                  // an exception left the handler: no further call is made

  datatype ClientOutcome = ClientOutcome(calls: seq<Delivery>, end: ClientEnd)

  /** The client's chunked reader: the calls it makes and how it ends. A part that has no room for the
      next chunk is delivered and replaced by an empty one. */
  function ClientDecode(line: string, wire: string, cap: nat, part: string, max: nat, offers: seq<nat>): ClientOutcome
    requires |line| <= cap && |part| <= max
    decreases |line| + |wire|, 0
  {
    var stream := line + wire;
    var l := ReadSizeLine(stream, cap);
    match l
    case BadSize => ClientOutcome([Delivery(part, true, ProtocolError)], Stopped)
    case LineTooLong => ClientOutcome([Delivery(part, true, TransportError)], Stopped)
    case Ended => ClientOutcome([Delivery(part, true, TransportError)], Stopped)
    case Size(n, end, surplus, rest) =>
      if n == 0 then ClientOutcome([Delivery(part, true, NoError)], Finished(rest))
      else ClientChunk(l, Ahead(|line|, end, Min(cap, |stream|), offers), cap, part, max, Later(offers))
  }

  /** The same from behind a size line on, with `ahead` bytes read beyond its CRLF. */
  function ClientChunk(l: SizeLine, ahead: nat, cap: nat, part: string, max: nat, offers: seq<nat>): ClientOutcome
    requires l.Size? && l.surplus + ahead <= Min(cap, |l.rest|) && |part| <= max
    decreases |l.rest|, 1
  {
    var (flushed, kept) := Flush(part, l.size, max);
    match ChunkAt(l, ahead, max - |kept|)
    case Overflow => ClientOutcome(flushed, Aborted)
    case CutOff(data) => ClientOutcome(flushed + [Delivery(kept + data, true, TransportError)], Stopped)
    case Taken(data, line, wire) =>
      var next := ClientDecode(line, wire, cap, kept + data, max, offers);
      ClientOutcome(flushed + next.calls, next.end)
  }

  function Flush(part: string, n: nat, max: nat): (r: (seq<Delivery>, string))
    ensures |r.1| <= |part|
  {
    if (n + |part|) % ULONG_LIMIT > max then ([Delivery(part, false, NoError)], "") else ([], part)
  }

  predicate ClientSteady(stream: string, low: nat, high: nat, held: nat, max: nat)
    requires held <= max
    decreases |stream|
  {
    var l := ReadSizeLine(stream, high);
    CapFree(stream, low, high) &&
    (l.Size? && l.size > 0 ==>
      var kept := if (l.size + held) % ULONG_LIMIT > max then 0 else held;
      && Steady(l, MostAhead(stream, high), max - kept)
      && match ChunkAt(l, 0, max - kept)
         case Taken(data, line, wire) => ClientSteady(line + wire, low, high, kept + |data|, max)
         case _ => true)
  }

  /** So are the calls made on the client. */
  lemma {:induction false} ClientReadsDoNotMatter(line: string, wire: string, offers: seq<nat>, cap: nat,
                                                  line': string, wire': string, offers': seq<nat>, cap': nat,
                                                  low: nat, high: nat, part: string, max: nat)
    requires |line| <= cap && |line'| <= cap' && |part| <= max && line + wire == line' + wire'
    requires low <= cap <= high && low <= cap' <= high && ClientSteady(line + wire, low, high, |part|, max)
    ensures ClientDecode(line, wire, cap, part, max, offers) == ClientDecode(line', wire', cap', part, max, offers')
    decreases |line| + |wire|
  {
    hide ReadSizeLine, ChunkAt, Steady, CapFree;
    var stream := line + wire;
    var l := ReadSizeLine(stream, high);
    CapFreeBetween(stream, low, cap, high);
    CapFreeBetween(stream, low, cap', high);
    if l.Size? && l.size != 0 {
      var (flushed, kept) := Flush(part, l.size, max);
      var most, room := MostAhead(stream, high), max - |kept|;
      var a, a' := Ahead(|line|, l.end, Min(cap, |stream|), offers), Ahead(|line'|, l.end, Min(cap', |stream|), offers');
      SteadyIsSame(l, most, room, a, a');
      SteadyIsSame(l, most, room, 0, a);
      var t, t' := ChunkAt(l, a, room), ChunkAt(l, a', room);
      if t.Taken? {
        ClientReadsDoNotMatter(t.line, t.wire, Later(offers), cap, t'.line, t'.wire, Later(offers'), cap', low, high, kept + t.data, max);
      }
    }
  }

  // ---------- chunked coding, section 4.1 of RFC 7230 ----------

  /** A chunk: 1*HEXDIG, an extension, the data. */
  datatype Chunk = Chunk(size: string, ext: string, data: string)

  /** A numeral for `n` in hexadecimal digits of either case, leading zeros allowed, and an extension. */
  ghost predicate SizeLineOk(size: string, ext: string, n: nat, cap: nat) {
    && IsNumeral(size, n, 16)
    && (ext == "" || ext[0] == ';' || ext[0] == ' ' || ext[0] == '\t')
    && '\n' !in ext
    && |size| + |ext| + 2 <= cap
  }

  ghost predicate ChunkOk(c: Chunk, cap: nat) {
    SizeLineOk(c.size, c.ext, |c.data|, cap) && 0 < |c.data| < ULONG_LIMIT
  }

  /** The chunks followed by the line of a zero-size chunk and whatever comes after it. */
  ghost function Wire(cs: seq<Chunk>, zero: string, ext: string, rest: string): string {
    if cs == [] then zero + ext + CRLF + rest
    else cs[0].size + cs[0].ext + CRLF + (cs[0].data + CRLF + Wire(cs[1..], zero, ext, rest))
  }

  ghost function Payload(cs: seq<Chunk>): string {
    if cs == [] then "" else cs[0].data + Payload(cs[1..])
  }

  ghost predicate WireOk(cs: seq<Chunk>, zero: string, ext: string, cap: nat) {
    && (forall i :: 0 <= i < |cs| ==> ChunkOk(cs[i], cap))
    && SizeLineOk(zero, ext, 0, cap)
  }

  lemma LineIsRead(stream: string, cap: nat, text: string, surplus: nat, rest: string, n: nat)
    requires CrlfEnd(stream[..Min(cap, |stream|)]) == Some(|text| + 1 + surplus)
    requires GetLine(stream) == Some(Line(text, rest)) && Stoul(text, 16) == Some(n)
    ensures ReadSizeLine(stream, cap) == Size(n, |text| + 1 + surplus, surplus, rest)
  {
    hide Stoul, CrlfEnd, GetLine;
    FirstLfWithin(stream, |text| + 1 + surplus);
  }

  /** The first CRLF is seen through a buffer that holds it. */
  lemma CrlfSeen(line: string, after: string, cap: nat)
    requires '\n' !in line && |line| + 2 <= cap
    ensures var s := line + CRLF + after; CrlfEnd(s[..Min(cap, |s|)]) == Some(|line| + 2)
  {
    hide CrlfEnd;
    var s := line + CRLF + after;
    CrlfEndOf(line, after);
    CrlfEndPrefix(s[..Min(cap, |s|)], s);
  }

  lemma SizeText(size: string, ext: string, n: nat, cap: nat)
    requires SizeLineOk(size, ext, n, cap) && n < ULONG_LIMIT
    ensures '\n' !in size + ext && Stoul(size + ext + "\r", 16) == Some(n)
  {
    NumeralValue(size, n, 16);
    hide IsNumeral, Stoul, Scan, LeadingDigits, Value;
    DigitsHaveNo(size, 16, '\n');
    StoulOfDigits(size, ext + "\r", 16);
    assert size + (ext + "\r") == size + ext + "\r";
  }

  /** A size line without a bare LF. */
  lemma CleanLine(line: string, after: string, cap: nat, n: nat)
    requires '\n' !in line && |line| + 2 <= cap && Stoul(line + "\r", 16) == Some(n)
    ensures ReadSizeLine(line + CRLF + after, cap) == Size(n, |line| + 2, 0, after)
  {
    hide Stoul, CrlfEnd, GetLine, ReadSizeLine;
    CrlfSeen(line, after, cap);
    GetLineOf(line + "\r", after);
    SplitLine(line, after);
    LineIsRead(line + CRLF + after, cap, line + "\r", 0, after, n);
  }

  lemma SizeLineIsRead(size: string, ext: string, after: string, n: nat, cap: nat)
    requires SizeLineOk(size, ext, n, cap) && n < ULONG_LIMIT
    ensures ReadSizeLine(size + ext + CRLF + after, cap) == Size(n, |size + ext| + 2, 0, after)
  {
    SizeText(size, ext, n, cap);
    hide Stoul, ReadSizeLine;
    CleanLine(size + ext, after, cap, n);
  }

  /** A line that the buffer does not hold. */
  lemma LongLine(line: string, after: string, cap: nat)
    requires '\n' !in line && |line| + 2 > cap
    ensures ReadSizeLine(line + CRLF + after, cap) == LineTooLong
  {
    hide Stoul, CrlfEnd, GetLine;
    var s := line + CRLF + after;
    CrlfEndOf(line, after);
    CrlfEndPrefix(s[..Min(cap, |s|)], s);
  }

  lemma SplitLine(line: string, after: string)
    ensures line + CRLF + after == (line + "\r") + "\n" + after
  {
  }

  /** The first chunk is read off the front through a buffer that holds its size line. */
  lemma ChunkInFront(cs: seq<Chunk>, zero: string, ext: string, rest: string, cap: nat)
    requires cs != [] && ChunkOk(cs[0], cap)
    ensures var data := cs[0].data;
            ReadSizeLine(Wire(cs, zero, ext, rest), cap)
            == Size(|data|, |cs[0].size + cs[0].ext| + 2, 0, data + CRLF + Wire(cs[1..], zero, ext, rest))
  {
    var c := cs[0];
    SizeLineIsRead(c.size, c.ext, c.data + CRLF + Wire(cs[1..], zero, ext, rest), |c.data|, cap);
  }

  /** The first chunk of a wire image is read off its front. */
  lemma FirstChunk(cs: seq<Chunk>, zero: string, ext: string, rest: string, cap: nat)
    requires WireOk(cs, zero, ext, cap) && cs != []
    ensures var data := cs[0].data;
            && ReadSizeLine(Wire(cs, zero, ext, rest), cap)
               == Size(|data|, |cs[0].size + cs[0].ext| + 2, 0, data + CRLF + Wire(cs[1..], zero, ext, rest))
            && 0 < |data| < ULONG_LIMIT
            && WireOk(cs[1..], zero, ext, cap)
  {
    assert ChunkOk(cs[0], cap);
    hide ChunkOk, SizeLineOk, ReadSizeLine, Wire;
    ChunkInFront(cs, zero, ext, rest, cap);
  }

  lemma LastChunk(zero: string, ext: string, rest: string, cap: nat)
    requires WireOk([], zero, ext, cap)
    ensures ReadSizeLine(Wire([], zero, ext, rest), cap) == Size(0, |zero + ext| + 2, 0, rest)
  {
    SizeLineIsRead(zero, ext, rest, 0, cap);
  }

  /** The size line and the data at the front of a wire image. */
  lemma FrontOf(cs: seq<Chunk>, zero: string, ext: string, rest: string, high: nat) returns (line: string, after: string)
    requires WireOk(cs, zero, ext, high)
    ensures '\n' !in line && Wire(cs, zero, ext, rest) == line + CRLF + after
    ensures line == if cs == [] then zero + ext else cs[0].size + cs[0].ext
  {
    hide Stoul, IsNumeral, Wire;
    WireFront(cs, zero, ext, rest);
    if cs == [] {
      SizeText(zero, ext, 0, high);
      line, after := zero + ext, rest;
    } else {
      var c := cs[0];
      assert ChunkOk(c, high);
      SizeText(c.size, c.ext, |c.data|, high);
      line, after := c.size + c.ext, c.data + CRLF + Wire(cs[1..], zero, ext, rest);
    }
  }

  lemma WireFront(cs: seq<Chunk>, zero: string, ext: string, rest: string)
    ensures Wire(cs, zero, ext, rest) ==
            if cs == [] then zero + ext + CRLF + rest
            else cs[0].size + cs[0].ext + CRLF + (cs[0].data + CRLF + Wire(cs[1..], zero, ext, rest))
  {
  }

  /** An encoding that fits some line buffer fits this one, or its first line does not, or its chunks
      behind the first do not. */
  lemma WireOkAt(cs: seq<Chunk>, zero: string, ext: string, high: nat, cap: nat)
    requires WireOk(cs, zero, ext, high)
    ensures cs == [] ==> (WireOk(cs, zero, ext, cap) <==> |zero + ext| + 2 <= cap)
    ensures cs != [] ==> WireOk(cs[1..], zero, ext, high) && 0 < |cs[0].data| < ULONG_LIMIT
    ensures cs != [] ==> (WireOk(cs, zero, ext, cap) <==> |cs[0].size + cs[0].ext| + 2 <= cap && WireOk(cs[1..], zero, ext, cap))
    ensures cs != [] && |cs[0].size + cs[0].ext| + 2 <= cap ==> ChunkOk(cs[0], cap)
  {
    hide IsNumeral;
    if cs != [] {
      assert ChunkOk(cs[0], high);
      assert cs == [cs[0]] + cs[1..];
    }
  }

  /** What a buffer of `cap` bytes makes of the first size line of an encoding that some buffer holds. */
  lemma FrontIsRead(cs: seq<Chunk>, zero: string, ext: string, rest: string, high: nat, cap: nat)
    requires WireOk(cs, zero, ext, high)
    ensures var l := ReadSizeLine(Wire(cs, zero, ext, rest), cap);
            if |if cs == [] then zero + ext else cs[0].size + cs[0].ext| + 2 > cap then
              l == LineTooLong && !WireOk(cs, zero, ext, cap)
            else if cs == [] then
              l.Size? && l.size == 0 && l.rest == rest && WireOk(cs, zero, ext, cap)
            else
              && l.Size? && l.surplus == 0 && l.size == |cs[0].data| && 0 < l.size < ULONG_LIMIT
              && l.rest == cs[0].data + CRLF + Wire(cs[1..], zero, ext, rest)
              && WireOk(cs[1..], zero, ext, high) && (WireOk(cs, zero, ext, cap) <==> WireOk(cs[1..], zero, ext, cap))
  {
    hide ReadSizeLine, Wire, ChunkOk, SizeLineOk, WireOk;
    WireOkAt(cs, zero, ext, high, cap);
    var text, after := FrontOf(cs, zero, ext, rest, high);
    if |text| + 2 > cap {
      LongLine(text, after, cap);
    } else if cs == [] {
      LastChunk(zero, ext, rest, cap);
    } else {
      ChunkInFront(cs, zero, ext, rest, cap);
    }
  }

  lemma ChunkIsTaken(l: SizeLine, ahead: nat, room: nat, data: string, tail: string)
    requires l.Size? && l.surplus == 0 && l.size == |data| <= room && l.rest == data + CRLF + tail && ahead <= |l.rest|
    ensures var t := ChunkAt(l, ahead, room);
            t.Taken? && t.data == data && t.line + t.wire == tail
  {
    TakenInOrder(l, ahead, room);
    assert l.rest[..|data|] == data && l.rest[|data| + 2..] == tail;
  }

  lemma ServerStep(line: string, wire: string, cap: nat, body: string, max: nat, offers: seq<nat>, data: string, tail: string)
      returns (line': string, wire': string)
    requires |line| <= cap && |body| + |data| <= max && |body| + |data| < ULONG_LIMIT && data != ""
    requires var l := ReadSizeLine(line + wire, cap); l.Size? && l.surplus == 0 && l.size == |data| && l.rest == data + CRLF + tail
    ensures |line'| <= cap && line' + wire' == tail
    ensures ServerDecode(line, wire, cap, body, max, offers) == ServerDecode(line', wire', cap, body + data, max, Later(offers))
  {
    hide ReadSizeLine, ChunkAt;
    var l := ReadSizeLine(line + wire, cap);
    var ahead := Ahead(|line|, l.end, Min(cap, |line + wire|), offers);
    ChunkIsTaken(l, ahead, max - |body|, data, tail);
    var t := ChunkAt(l, ahead, max - |body|);
    line', wire' := t.line, t.wire;
  }

  /** Round trip on the server: every encoding of every chunk list, however it is split into reads, is
      decoded to the concatenated data, what is behind the zero-size line is left over, and the body is
      refused exactly when it does not fit. */
  lemma {:induction false} ServerRoundTrip(cs: seq<Chunk>, zero: string, ext: string, rest: string, cap: nat,
                                           line: string, wire: string, offers: seq<nat>, body: string, max: nat)
    requires WireOk(cs, zero, ext, cap)
    requires line + wire == Wire(cs, zero, ext, rest) && |line| <= cap
    requires |body| <= max && |body| + |Payload(cs)| < ULONG_LIMIT
    ensures ServerDecode(line, wire, cap, body, max, offers)
         == if |body| + |Payload(cs)| <= max then Complete(body + Payload(cs), rest) else TooLarge
    decreases cs
  {
    hide ReadSizeLine, Wire, ChunkOk, SizeLineOk, ChunkAt;
    if cs == [] {
      LastChunk(zero, ext, rest, cap);
      assert body + "" == body;
    } else {
      FirstChunk(cs, zero, ext, rest, cap);
      var data := cs[0].data;
      if |body| + |data| <= max {
        hide ServerDecode;
        var line', wire' := ServerStep(line, wire, cap, body, max, offers, data, Wire(cs[1..], zero, ext, rest));
        ServerRoundTrip(cs[1..], zero, ext, rest, cap, line', wire', Later(offers), body + data, max);
        assert body + data + Payload(cs[1..]) == body + Payload(cs);
      }
    }
  }

  /** The server's round trip for every capacity: a body that fits is complete if and only if the buffer
      holds each size line; otherwise a line is not found. */
  lemma {:induction false} ServerRoundTripIff(cs: seq<Chunk>, zero: string, ext: string, rest: string, high: nat, cap: nat,
                                              line: string, wire: string, offers: seq<nat>, body: string, max: nat)
    requires WireOk(cs, zero, ext, high)
    requires line + wire == Wire(cs, zero, ext, rest) && |line| <= cap
    requires |body| + |Payload(cs)| <= max && |body| + |Payload(cs)| < ULONG_LIMIT
    ensures ServerDecode(line, wire, cap, body, max, offers)
         == if WireOk(cs, zero, ext, cap) then Complete(body + Payload(cs), rest) else NotFound
    decreases cs
  {
    hide ReadSizeLine, Wire, ChunkAt, WireOk;
    FrontIsRead(cs, zero, ext, rest, high, cap);
    if cs == [] {
      assert body + "" == body;
    } else if ReadSizeLine(line + wire, cap).Size? {
      hide ServerDecode;
      var data := cs[0].data;
      var line', wire' := ServerStep(line, wire, cap, body, max, offers, data, Wire(cs[1..], zero, ext, rest));
      ServerRoundTripIff(cs[1..], zero, ext, rest, high, cap, line', wire', Later(offers), body + data, max);
      assert body + data + Payload(cs[1..]) == body + Payload(cs);
    }
  }

  // ---------- deliveries ----------

  ghost function Content(calls: seq<Delivery>): string {
    if calls == [] then "" else calls[0].content + Content(calls[1..])
  }

  /** Parts that fit the buffer, the last one and only the last one marked as such, without an error
      before the last, which carries `final`. */
  ghost predicate Delivered(calls: seq<Delivery>, max: nat, final: Error) {
    && calls != []
    && (forall i :: 0 <= i < |calls| ==>
          && |calls[i].content| <= max
          && calls[i].error == (if i == |calls| - 1 then final else NoError)
          && (calls[i].last <==> i == |calls| - 1))
  }

  ghost predicate WellDelivered(calls: seq<Delivery>, max: nat) {
    Delivered(calls, max, NoError)
  }

  lemma ContentCons(d: Delivery, calls: seq<Delivery>)
    ensures Content([d] + calls) == d.content + Content(calls)
  {
    assert ([d] + calls)[1..] == calls;
  }

  lemma OneDelivery(content: string, max: nat, final: Error)
    requires |content| <= max
    ensures Delivered([Delivery(content, true, final)], max, final) && Content([Delivery(content, true, final)]) == content
  {
    var d := Delivery(content, true, final);
    ContentCons(d, []);
    assert [d] + [] == [d];
    assert content + "" == content;
  }

  lemma DeliveredCons(d: Delivery, calls: seq<Delivery>, max: nat, final: Error)
    requires Delivered(calls, max, final) && |d.content| <= max && d.error == NoError && !d.last
    ensures Delivered([d] + calls, max, final) && Content([d] + calls) == d.content + Content(calls)
  {
    ContentCons(d, calls);
  }

  lemma ClientStep(line: string, wire: string, cap: nat, part: string, max: nat, offers: seq<nat>, data: string, tail: string)
      returns (line': string, wire': string)
    requires |line| <= cap && 0 < |data| <= max && |part| <= max && |part| + |data| < ULONG_LIMIT
    requires var l := ReadSizeLine(line + wire, cap); l.Size? && l.surplus == 0 && l.size == |data| && l.rest == data + CRLF + tail
    ensures |line'| <= cap && line' + wire' == tail
    ensures var full := |data| + |part| > max;
            var next := ClientDecode(line', wire', cap, if full then data else part + data, max, Later(offers));
            ClientDecode(line, wire, cap, part, max, offers)
            == ClientOutcome(if full then [Delivery(part, false, NoError)] + next.calls else next.calls, next.end)
  {
    hide ReadSizeLine, ChunkAt;
    var l := ReadSizeLine(line + wire, cap);
    var (flushed, kept) := Flush(part, |data|, max);
    var ahead := Ahead(|line|, l.end, Min(cap, |line + wire|), offers);
    ChunkIsTaken(l, ahead, max - |kept|, data, tail);
    var t := ChunkAt(l, ahead, max - |kept|);
    line', wire' := t.line, t.wire;
    assert "" + data == data;
    var next := ClientDecode(line', wire', cap, kept + data, max, Later(offers));
    assert [] + next.calls == next.calls;
  }

  /** One pass of the client's reader, from a size line to the next. */
  lemma ClientPass(line: string, wire: string, cap: nat, part: string, max: nat, offers: seq<nat>, l: SizeLine)
    requires |line| <= cap && |part| <= max && l == ReadSizeLine(line + wire, cap)
    ensures var outcome := ClientDecode(line, wire, cap, part, max, offers);
            if !l.Size? || l.size == 0 then
              outcome == ClientOutcome([Delivery(part, true, if l.Size? then NoError else if l.BadSize? then ProtocolError else TransportError)],
                                       if l.Size? then Finished(l.rest) else Stopped)
            else
              var (flushed, kept) := Flush(part, l.size, max);
              var ahead := Ahead(|line|, l.end, Min(cap, |line + wire|), offers);
              var t := ChunkAt(l, ahead, max - |kept|);
              && (t.Overflow? ==> outcome == ClientOutcome(flushed, Aborted))
              && (t.CutOff? ==> outcome == ClientOutcome(flushed + [Delivery(kept + t.data, true, TransportError)], Stopped) && |kept + t.data| <= max)
              && (t.Taken? ==>
                    && |t.line| <= cap && |kept + t.data| <= max && |t.line| + |t.wire| < |line| + |wire|
                    && var next := ClientDecode(t.line, t.wire, cap, kept + t.data, max, Later(offers));
                       outcome == ClientOutcome(flushed + next.calls, next.end))
  {
    hide ReadSizeLine, ChunkAt;
  }

  /** The client's for every capacity: the body is delivered whole, without an error, if and only if the
      buffer holds each size line; otherwise a front part of it, and the last call carries an error. */
  lemma {:induction false} ClientRoundTripIff(cs: seq<Chunk>, zero: string, ext: string, rest: string, high: nat, cap: nat,
                                              line: string, wire: string, offers: seq<nat>, part: string, max: nat)
    requires WireOk(cs, zero, ext, high)
    requires line + wire == Wire(cs, zero, ext, rest) && |line| <= cap
    requires |part| <= max && |part| + |Payload(cs)| < ULONG_LIMIT
    requires forall i :: 0 <= i < |cs| ==> |cs[i].data| <= max
    ensures var outcome := ClientDecode(line, wire, cap, part, max, offers);
            var whole := WireOk(cs, zero, ext, cap);
            && outcome.end == (if whole then Finished(rest) else Stopped)
            && Delivered(outcome.calls, max, if whole then NoError else TransportError)
            && Content(outcome.calls) <= part + Payload(cs)
            && (whole ==> Content(outcome.calls) == part + Payload(cs))
    decreases cs
  {
    hide ReadSizeLine, Wire, ChunkAt, Delivered, WireOk, ClientDecode;
    FrontIsRead(cs, zero, ext, rest, high, cap);
    if cs == [] || ReadSizeLine(line + wire, cap) == LineTooLong {
      ClientPass(line, wire, cap, part, max, offers, ReadSizeLine(line + wire, cap));
      OneDelivery(part, max, if WireOk(cs, zero, ext, cap) then NoError else TransportError);
      assert part + "" == part && part <= part + Payload(cs);
    } else {
      var data, tail := cs[0].data, Wire(cs[1..], zero, ext, rest);
      var line', wire' := ClientStep(line, wire, cap, part, max, offers, data, tail);
      if |data| + |part| > max {
        var next := ClientDecode(line', wire', cap, data, max, Later(offers));
        ClientRoundTripIff(cs[1..], zero, ext, rest, high, cap, line', wire', Later(offers), data, max);
        DeliveredCons(Delivery(part, false, NoError), next.calls, max,
                      if WireOk(cs[1..], zero, ext, cap) then NoError else TransportError);
        assert part + (data + Payload(cs[1..])) == part + Payload(cs);
      } else {
        ClientRoundTripIff(cs[1..], zero, ext, rest, high, cap, line', wire', Later(offers), part + data, max);
        assert part + data + Payload(cs[1..]) == part + Payload(cs);
      }
    }
  }

  /** Round trip on the client: the delivered parts concatenate to the whole body, each fits the
      buffer, and only the last is marked as last. */
  lemma ClientRoundTrip(cs: seq<Chunk>, zero: string, ext: string, rest: string, cap: nat,
                        line: string, wire: string, offers: seq<nat>, part: string, max: nat)
    requires WireOk(cs, zero, ext, cap)
    requires line + wire == Wire(cs, zero, ext, rest) && |line| <= cap
    requires |part| <= max && |part| + |Payload(cs)| < ULONG_LIMIT
    requires forall i :: 0 <= i < |cs| ==> |cs[i].data| <= max
    ensures var outcome := ClientDecode(line, wire, cap, part, max, offers);
            && outcome.end == Finished(rest)
            && WellDelivered(outcome.calls, max) && Content(outcome.calls) == part + Payload(cs)
  {
    hide ClientDecode, Delivered, Wire, WireOk;
    ClientRoundTripIff(cs, zero, ext, rest, cap, cap, line, wire, offers, part, max);
  }

  /** A body that fits the buffer is delivered in one part: a part is handed over early only where the next
      chunk does not fit behind it. */
  lemma {:induction false} ClientOnePart(cs: seq<Chunk>, zero: string, ext: string, rest: string, cap: nat,
                                         line: string, wire: string, offers: seq<nat>, part: string, max: nat)
    requires WireOk(cs, zero, ext, cap)
    requires line + wire == Wire(cs, zero, ext, rest) && |line| <= cap
    requires |part| + |Payload(cs)| <= max && |part| + |Payload(cs)| < ULONG_LIMIT
    ensures ClientDecode(line, wire, cap, part, max, offers).calls == [Delivery(part + Payload(cs), true, NoError)]
    decreases cs
  {
    hide ReadSizeLine, Wire, ChunkAt, WireOk;
    FrontIsRead(cs, zero, ext, rest, cap, cap);
    if cs == [] {
      assert part + "" == part;
    } else {
      hide ClientDecode;
      var data := cs[0].data;
      var line', wire' := ClientStep(line, wire, cap, part, max, offers, data, Wire(cs[1..], zero, ext, rest));
      ClientOnePart(cs[1..], zero, ext, rest, cap, line', wire', Later(offers), part + data, max);
      assert part + data + Payload(cs[1..]) == part + Payload(cs);
    }
  }

  /** And early only there: if the first chunk does not fit behind the part, the part is a call of its own. */
  lemma ClientFlushesFirst(cs: seq<Chunk>, zero: string, ext: string, rest: string, cap: nat,
                           line: string, wire: string, offers: seq<nat>, part: string, max: nat)
    requires WireOk(cs, zero, ext, cap) && cs != []
    requires line + wire == Wire(cs, zero, ext, rest) && |line| <= cap
    requires |part| <= max && |cs[0].data| <= max < |part| + |cs[0].data| < ULONG_LIMIT
    ensures var calls := ClientDecode(line, wire, cap, part, max, offers).calls;
            calls != [] && calls[0] == Delivery(part, false, NoError)
  {
    hide ReadSizeLine, Wire, ChunkAt, WireOk, ClientDecode;
    FrontIsRead(cs, zero, ext, rest, cap, cap);
    var line', wire' := ClientStep(line, wire, cap, part, max, offers, cs[0].data, Wire(cs[1..], zero, ext, rest));
  }

  // ---------- messages cut off or malformed ----------

  lemma LineCutOff(line: string, after: string, n: nat, cap: nat)
    requires '\n' !in line && |line| + 2 <= cap && n < |line| + 2
    ensures ReadSizeLine((line + CRLF + after)[..n], cap) == Ended
  {
    hide Stoul, CrlfEnd, GetLine;
    var s := line + CRLF + after;
    CrlfEndOf(line, after);
    CrlfEndPrefix(s[..n], s);
  }

  /** The data that has arrived with the first `n` bytes of the wire image. */
  ghost function Arrived(cs: seq<Chunk>, n: nat): string {
    if cs == [] then ""
    else
      var c, h := cs[0], |cs[0].size + cs[0].ext| + 2;
      if n < h then ""
      else if n < h + |c.data| + 2 then c.data[..Min(n - h, |c.data|)]
      else c.data + Arrived(cs[1..], n - h - |c.data| - 2)
  }

  /** How a wire image begins whose first `n` bytes arrive: its first line is unfinished; or its first
      chunk is; or that is followed by the first bytes of the others. */
  lemma CutFront(cs: seq<Chunk>, zero: string, ext: string, n: nat, cap: nat)
    requires WireOk(cs, zero, ext, cap) && n < |Wire(cs, zero, ext, "")|
    ensures var l := ReadSizeLine(Wire(cs, zero, ext, "")[..n], cap);
            if cs == [] || n < |cs[0].size + cs[0].ext| + 2 then l == Ended
            else
              var data, m := cs[0].data, n - (|cs[0].size + cs[0].ext| + 2);
              && l.Size? && l.surplus == 0 && l.size == |data| && 0 < l.size < ULONG_LIMIT && WireOk(cs[1..], zero, ext, cap)
              && l.rest == (data + CRLF + Wire(cs[1..], zero, ext, ""))[..m] && |l.rest| == m
  {
    hide ReadSizeLine, Wire, IsNumeral;
    var text, after := FrontOf(cs, zero, ext, "", cap);
    assert |text| + 2 <= cap by {
      if cs != [] {
        assert ChunkOk(cs[0], cap);
      }
    }
    if n < |text| + 2 {
      LineCutOff(text, after, n, cap);
    } else if cs == [] {
      WireFront(cs, zero, ext, "");
    } else {
      WireFront(cs, zero, ext, "");
      var c, m := cs[0], n - (|text| + 2);
      var behind := c.data + CRLF + Wire(cs[1..], zero, ext, "");
      assert ChunkOk(c, cap);
      CutBehind(c.size + c.ext + CRLF, behind, m);
      SizeLineIsRead(c.size, c.ext, behind[..m], |c.data|, cap);
    }
  }

  lemma CutBehind(front: string, behind: string, m: nat)
    requires m <= |behind|
    ensures (front + behind)[..|front| + m] == front + behind[..m]
  {
  }

  /** The rest of a cut wire image, behind a whole chunk. */
  lemma CutChunk(data: string, tail: string, m: nat)
    requires m <= |data + CRLF + tail|
    ensures var behind := (data + CRLF + tail)[..m];
            && behind[..Min(m, |data|)] == data[..Min(m, |data|)]
            && (m >= |data| + 2 ==> behind == data + CRLF + tail[..m - |data| - 2])
  {
  }

  lemma ServerChunkCutOff(line: string, wire: string, cap: nat, body: string, max: nat, offers: seq<nat>)
    requires |line| <= cap && |body| <= max
    requires var l := ReadSizeLine(line + wire, cap);
             l == Ended || (l.Size? && l.surplus == 0 && 0 < l.size && |body| + l.size <= max && |body| + l.size < ULONG_LIMIT && |l.rest| < l.size + 2)
    ensures ServerDecode(line, wire, cap, body, max, offers) == Lost
  {
    hide ReadSizeLine, ChunkAt;
    var l := ReadSizeLine(line + wire, cap);
    if l.Size? {
      TakenInOrder(l, Ahead(|line|, l.end, Min(cap, |line + wire|), offers), max - |body|);
    }
  }

  /** A well-formed body that fits is never taken for complete when the connection ends anywhere before the
      end of its last line, however the bytes are read. */
  lemma {:induction false} ServerCutOff(cs: seq<Chunk>, zero: string, ext: string, n: nat, cap: nat,
                                        line: string, wire: string, offers: seq<nat>, body: string, max: nat)
    requires WireOk(cs, zero, ext, cap) && n < |Wire(cs, zero, ext, "")|
    requires line + wire == Wire(cs, zero, ext, "")[..n] && |line| <= cap
    requires |body| + |Payload(cs)| <= max && |body| + |Payload(cs)| < ULONG_LIMIT
    ensures ServerDecode(line, wire, cap, body, max, offers) == Lost
    decreases cs
  {
    hide ReadSizeLine, Wire, ChunkAt, WireOk, ServerDecode;
    CutFront(cs, zero, ext, n, cap);
    if cs == [] || n < |cs[0].size + cs[0].ext| + 2 {
      ServerChunkCutOff(line, wire, cap, body, max, offers);
    } else {
      var data, tail, m := cs[0].data, Wire(cs[1..], zero, ext, ""), n - (|cs[0].size + cs[0].ext| + 2);
      WireFront(cs, zero, ext, "");
      CutChunk(data, tail, m);
      if m < |data| + 2 {
        ServerChunkCutOff(line, wire, cap, body, max, offers);
      } else {
        var line', wire' := ServerStep(line, wire, cap, body, max, offers, data, tail[..m - |data| - 2]);
        ServerCutOff(cs[1..], zero, ext, m - |data| - 2, cap, line', wire', Later(offers), body + data, max);
      }
    }
  }

  lemma ClientChunkCutOff(line: string, wire: string, cap: nat, part: string, max: nat, offers: seq<nat>)
    requires |line| <= cap && |part| <= max
    requires var l := ReadSizeLine(line + wire, cap);
             l == Ended || (l.Size? && l.surplus == 0 && 0 < l.size <= max && |part| + l.size < ULONG_LIMIT && |l.rest| < l.size + 2)
    ensures var l, outcome := ReadSizeLine(line + wire, cap), ClientDecode(line, wire, cap, part, max, offers);
            && outcome.end == Stopped && Delivered(outcome.calls, max, TransportError)
            && Content(outcome.calls) == part + if l == Ended then "" else l.rest[..Min(l.size, |l.rest|)]
  {
    hide ReadSizeLine, ChunkAt, Delivered, Content;
    var l := ReadSizeLine(line + wire, cap);
    if l.Size? {
      var (flushed, kept) := Flush(part, l.size, max);
      var ahead := Ahead(|line|, l.end, Min(cap, |line + wire|), offers);
      TakenInOrder(l, ahead, max - |kept|);
      var data := ChunkAt(l, ahead, max - |kept|).data;
      OneDelivery(kept + data, max, TransportError);
      var last := [Delivery(kept + data, true, TransportError)];
      assert [] + last == last && "" + data == data;
      if flushed != [] {
        DeliveredCons(Delivery(part, false, NoError), last, max, TransportError);
      }
    } else {
      OneDelivery(part, max, TransportError);
      assert part + "" == part;
    }
  }

  /** The part so far, as a call of its own or joined with the next chunk, in front of the calls that follow. */
  lemma PartsJoin(part: string, data: string, full: bool, calls: seq<Delivery>, tail: string, max: nat, final: Error)
    requires Delivered(calls, max, final) && |part| <= max
    requires Content(calls) == (if full then data else part + data) + tail
    ensures var all := if full then [Delivery(part, false, NoError)] + calls else calls;
            Delivered(all, max, final) && Content(all) == part + (data + tail)
  {
    hide Delivered, Content;
    if full {
      DeliveredCons(Delivery(part, false, NoError), calls, max, final);
    } else {
      assert part + data + tail == part + (data + tail);
    }
  }

  /** On the client, all data that has arrived is delivered, and then the error. */
  lemma {:induction false} ClientCutOff(cs: seq<Chunk>, zero: string, ext: string, n: nat, cap: nat,
                                        line: string, wire: string, offers: seq<nat>, part: string, max: nat)
    requires WireOk(cs, zero, ext, cap) && n < |Wire(cs, zero, ext, "")|
    requires line + wire == Wire(cs, zero, ext, "")[..n] && |line| <= cap
    requires |part| <= max && |part| + |Payload(cs)| < ULONG_LIMIT
    requires forall i :: 0 <= i < |cs| ==> |cs[i].data| <= max
    ensures var outcome := ClientDecode(line, wire, cap, part, max, offers);
            && outcome.end == Stopped && Delivered(outcome.calls, max, TransportError)
            && Content(outcome.calls) == part + Arrived(cs, n)
    decreases cs
  {
    hide ReadSizeLine, Wire, ChunkAt, WireOk, ClientDecode, Delivered, Content;
    CutFront(cs, zero, ext, n, cap);
    if cs == [] || n < |cs[0].size + cs[0].ext| + 2 {
      ClientChunkCutOff(line, wire, cap, part, max, offers);
    } else {
      var data, tail, m := cs[0].data, Wire(cs[1..], zero, ext, ""), n - (|cs[0].size + cs[0].ext| + 2);
      WireFront(cs, zero, ext, "");
      CutChunk(data, tail, m);
      if m < |data| + 2 {
        ClientChunkCutOff(line, wire, cap, part, max, offers);
      } else {
        var k := m - |data| - 2;
        var line', wire' := ClientStep(line, wire, cap, part, max, offers, data, tail[..k]);
        var full := |data| + |part| > max;
        ClientCutOff(cs[1..], zero, ext, k, cap, line', wire', Later(offers), if full then data else part + data, max);
        var next := ClientDecode(line', wire', cap, if full then data else part + data, max, Later(offers));
        assert Arrived(cs, n) == data + Arrived(cs[1..], k);
        hide Arrived;
        PartsJoin(part, data, full, next.calls, Arrived(cs[1..], k), max, TransportError);
      }
    }
  }

  /** Chunks, and then a line with no number in it. */
  ghost predicate BadWire(cs: seq<Chunk>, bad: string, cap: nat) {
    && (forall i :: 0 <= i < |cs| ==> ChunkOk(cs[i], cap))
    && '\n' !in bad && |bad| + 2 <= cap && Stoul(bad + "\r", 16) == None
  }

  lemma BadLine(line: string, after: string, cap: nat)
    requires '\n' !in line && |line| + 2 <= cap && Stoul(line + "\r", 16) == None
    ensures ReadSizeLine(line + CRLF + after, cap) == BadSize
  {
    hide Stoul, CrlfEnd, GetLine;
    CrlfSeen(line, after, cap);
    GetLineOf(line + "\r", after);
    SplitLine(line, after);
  }

  lemma BadFront(cs: seq<Chunk>, bad: string, rest: string, cap: nat)
    requires BadWire(cs, bad, cap)
    ensures var l := ReadSizeLine(Wire(cs, bad, "", rest), cap);
            if cs == [] then l == BadSize
            else
              && l.Size? && l.surplus == 0 && l.size == |cs[0].data| && 0 < l.size < ULONG_LIMIT
              && l.rest == cs[0].data + CRLF + Wire(cs[1..], bad, "", rest) && BadWire(cs[1..], bad, cap)
  {
    hide ReadSizeLine, Stoul, IsNumeral;
    WireFront(cs, bad, "", rest);
    if cs == [] {
      BadLine(bad, rest, cap);
      assert bad + "" == bad;
    } else {
      assert ChunkOk(cs[0], cap);
      ChunkInFront(cs, bad, "", rest, cap);
    }
  }

  /** Behind any chunks, the server reports a malformed message at a line that has no number. */
  lemma {:induction false} ServerMalformed(cs: seq<Chunk>, bad: string, rest: string, cap: nat,
                                           line: string, wire: string, offers: seq<nat>, body: string, max: nat)
    requires BadWire(cs, bad, cap) && line + wire == Wire(cs, bad, "", rest) && |line| <= cap
    requires |body| + |Payload(cs)| <= max && |body| + |Payload(cs)| < ULONG_LIMIT
    ensures ServerDecode(line, wire, cap, body, max, offers) == Malformed
    decreases cs
  {
    hide ReadSizeLine, Wire, ChunkAt, BadWire;
    BadFront(cs, bad, rest, cap);
    if cs != [] {
      hide ServerDecode;
      var line', wire' := ServerStep(line, wire, cap, body, max, offers, cs[0].data, Wire(cs[1..], bad, "", rest));
      ServerMalformed(cs[1..], bad, rest, cap, line', wire', Later(offers), body + cs[0].data, max);
    }
  }

  /** So does the client, and the data before that line has been delivered. */
  lemma {:induction false} ClientMalformed(cs: seq<Chunk>, bad: string, rest: string, cap: nat,
                                           line: string, wire: string, offers: seq<nat>, part: string, max: nat)
    requires BadWire(cs, bad, cap) && line + wire == Wire(cs, bad, "", rest) && |line| <= cap
    requires |part| <= max && |part| + |Payload(cs)| < ULONG_LIMIT
    requires forall i :: 0 <= i < |cs| ==> |cs[i].data| <= max
    ensures var outcome := ClientDecode(line, wire, cap, part, max, offers);
            && outcome.end == Stopped && Delivered(outcome.calls, max, ProtocolError)
            && Content(outcome.calls) == part + Payload(cs)
    decreases cs
  {
    hide ReadSizeLine, Wire, ChunkAt, BadWire, Delivered, ClientDecode, Content;
    BadFront(cs, bad, rest, cap);
    if cs == [] {
      ClientBadLine(line, wire, cap, part, max, offers);
      assert part + "" == part;
    } else {
      var data, tail := cs[0].data, Wire(cs[1..], bad, "", rest);
      var line', wire' := ClientStep(line, wire, cap, part, max, offers, data, tail);
      var full := |data| + |part| > max;
      ClientMalformed(cs[1..], bad, rest, cap, line', wire', Later(offers), if full then data else part + data, max);
      var next := ClientDecode(line', wire', cap, if full then data else part + data, max, Later(offers));
      assert Payload(cs) == data + Payload(cs[1..]);
      PartsJoin(part, data, full, next.calls, Payload(cs[1..]), max, ProtocolError);
    }
  }

  lemma ClientBadLine(line: string, wire: string, cap: nat, part: string, max: nat, offers: seq<nat>)
    requires |line| <= cap && |part| <= max && ReadSizeLine(line + wire, cap) == BadSize
    ensures var outcome := ClientDecode(line, wire, cap, part, max, offers);
            outcome.end == Stopped && Delivered(outcome.calls, max, ProtocolError) && Content(outcome.calls) == part
  {
    hide ReadSizeLine, Delivered, Content;
    OneDelivery(part, max, ProtocolError);
  }

  // ---------- two messages that are not steady ----------

  lemma CrlfEndSkipsOne(s: string)
    requires |s| >= 3 && s[0] != '\r'
    ensures CrlfEnd(s) == if CrlfEnd(s[1..]) == None then None else Some(CrlfEnd(s[1..]).value + 1)
  {
  }

  lemma {:induction false} CrlfEndSkips(a: string, b: string)
    requires '\r' !in a && CrlfEnd(b).Some?
    ensures CrlfEnd(a + b) == Some(|a| + CrlfEnd(b).value)
  {
    hide CrlfEnd;
    if a == "" {
      assert a + b == b;
    } else {
      CrlfEndSkips(a[1..], b);
      assert a[0] in a;
      CrlfEndSkipsOne(a + b);
      assert (a + b)[1..] == a[1..] + b;
    }
  }

  /** A size line cut at its bare LF. */
  lemma BareLfLine(digits: string, rest: string, surplus: nat, cap: nat, n: nat)
    requires '\n' !in digits && '\r' !in digits && Stoul(digits, 16) == Some(n)
    requires CrlfEnd(rest) == Some(surplus) && |digits| + 1 + surplus <= cap
    ensures ReadSizeLine(digits + "\n" + rest, cap) == Size(n, |digits| + 1 + surplus, surplus, rest)
  {
    hide Stoul, CrlfEnd, GetLine, ReadSizeLine;
    var s := digits + "\n" + rest;
    CrlfEndSkips(digits + "\n", rest);
    CrlfEndPrefix(s[..Min(cap, |s|)], s);
    GetLineOf(digits, rest);
    LineIsRead(s, cap, digits, surplus, rest, n);
  }

  lemma DigitsAlone(digits: string)
    requires digits != "" && AllDigits(digits, 16) && Value(digits, 16) < ULONG_LIMIT
    ensures '\n' !in digits && '\r' !in digits && Stoul(digits, 16) == Some(Value(digits, 16))
  {
    hide Stoul, Value;
    DigitsHaveNo(digits, 16, '\n');
    DigitsHaveNo(digits, 16, '\r');
    StoulOfDigits(digits, "", 16);
    assert digits + "" == digits;
  }

  lemma NoNumber(c: char, after: string, cap: nat)
    requires !IsSpace(c) && c != '-' && c != '+' && DigitValue(c) == None && 3 <= cap
    ensures ReadSizeLine([c] + CRLF + after, cap) == BadSize
  {
    hide CrlfEnd, GetLine;
    var s := [c] + CRLF + after;
    var front := after[..Min(cap, |s|) - 3];
    CrlfEndOf([c], front);
    assert s[..Min(cap, |s|)] == [c] + CRLF + front;
    GetLineOf([c] + "\r", after);
    assert s == ([c] + "\r") + "\n" + after;
  }

  /** One message, two splittings: behind a size line with a bare LF, the server completes the request
      with the chunk's byte if it has read no further than the CRLF of that line, and calls the message
      malformed if it has read on. */
  lemma BareLfDependsOnReads(wire: string, max: nat)
    requires wire == "1\n0\r\nQ\r\n" && 1 <= max < ULONG_LIMIT
    ensures ServerDecode("", wire, 18, "", max, [0]) == Complete("Q", "")
    ensures ServerDecode("", wire, 18, "", max, [3]) == Malformed
  {
    var l := Size(1, 5, 3, "0\r\nQ\r\n");
    BareLfLines(wire, l);
    BareLfTaken(l, max);
    ServerOneChunk(wire, max, [0], l, 0, "Q", "0\r\n");
    ServerOneChunk(wire, max, [3], l, 3, "0", "Q\r\n");
  }

  /** One chunk, and then a size line that ends the message. */
  lemma ServerOneChunk(wire: string, max: nat, offers: seq<nat>, l: SizeLine, ahead: nat, data: string, line: string)
    requires ReadSizeLine(wire, 18) == l && l.Size? && 0 < l.size <= max < ULONG_LIMIT
    requires ahead == Ahead(0, l.end, Min(18, |wire|), offers) && ChunkAt(l, ahead, max) == Taken(data, line, "")
    requires |line| <= 18
    ensures ReadSizeLine(line, 18).BadSize? ==> ServerDecode("", wire, 18, "", max, offers) == Malformed
    ensures ReadSizeLine(line, 18).Size? && ReadSizeLine(line, 18).size == 0 ==>
              ServerDecode("", wire, 18, "", max, offers) == Complete(data, ReadSizeLine(line, 18).rest)
  {
    hide ReadSizeLine, ChunkAt;
    assert "" + wire == wire && "" + data == data && line + "" == line;
    ServerPass("", wire, 18, "", max, offers, l);
  }

  lemma BareLfLines(wire: string, l: SizeLine)
    requires wire == "1\n0\r\nQ\r\n" && l == Size(1, 5, 3, "0\r\nQ\r\n")
    ensures ReadSizeLine(wire, 18) == l
    ensures ReadSizeLine("0\r\n", 18) == Size(0, 3, 0, "")
    ensures ReadSizeLine("Q\r\n", 18) == BadSize
  {
    hide ReadSizeLine, Stoul, CrlfEnd;
    BareLfFirst(wire, l.rest);
    BareLfThen();
    NoNumber('Q', "", 18);
    assert ['Q'] + CRLF + "" == "Q\r\n";
  }

  lemma BareLfFirst(wire: string, rest: string)
    requires wire == "1\n0\r\nQ\r\n" && rest == "0\r\nQ\r\n"
    ensures ReadSizeLine(wire, 18) == Size(1, 5, 3, rest)
  {
    hide ReadSizeLine, Stoul, CrlfEnd, Value, AllDigits;
    DigitAlone('1', 1, ['1']);
    CrlfEndOf("0", "Q\r\n");
    assert "0" + CRLF + "Q\r\n" == rest && "1" + "\n" + rest == wire;
    BareLfLine(['1'], rest, 3, 18, 1);
  }

  lemma DigitAlone(c: char, v: nat, digits: string)
    requires DigitValue(c) == Some(v) && digits == [c]
    ensures '\n' !in digits && '\r' !in digits && Stoul(digits, 16) == Some(v)
  {
    OneDigit(c, v);
    hide Stoul, Value, AllDigits;
    DigitsAlone(digits);
  }

  lemma BareLfThen()
    ensures ReadSizeLine("0\r\n", 18) == Size(0, 3, 0, "")
  {
    OneDigit('0', 0);
    hide ReadSizeLine, Stoul, CrlfEnd, IsNumeral;
    SizeLineIsRead("0", "", "", 0, 18);
    assert "0" + "" + CRLF + "" == "0\r\n";
  }

  lemma OneDigit(c: char, v: nat)
    requires DigitValue(c) == Some(v)
    ensures AllDigits([c], 16) && Value([c], 16) == v && IsNumeral([c], v, 16)
  {
    assert [c][..0] == "";
    NumeralValue([c], v, 16);
  }

  lemma BareLfTaken(l: SizeLine, room: nat)
    requires l == Size(1, 5, 3, "0\r\nQ\r\n") && 1 <= room
    ensures ChunkAt(l, 0, room) == Taken("Q", "0\r\n", "")
    ensures ChunkAt(l, 3, room) == Taken("0", "Q\r\n", "")
  {
    assert l.rest[..3] == "0\r\n" && l.rest[3..] == "Q\r\n" && l.rest[..6] == l.rest && l.rest[6..] == "";
    assert l.rest[3..][..1] == "Q" && l.rest[3..][3..] == "" && "" + "Q" == "Q" && l.rest[..3][..0] == "";
    assert l.rest[..1] == "0" && l.rest[1..][2..] == "Q\r\n";
  }

  // ---------- exceptions ----------

  lemma OverflowIff(l: SizeLine, ahead: nat, room: nat)
    requires l.Size? && l.surplus + ahead <= |l.rest|
    ensures ChunkAt(l, ahead, room) == Overflow <==> Min(l.size, ahead) > room
  {
    hide ChunkAt;
    ChunkAround(l, ahead, room);
  }

  /** On the server, a chunk size that has passed the check of the limit exceeds the room left in the
      body's buffer exactly if its 64-bit sum with the body wraps around; only then can `prepare` throw. */
  lemma ServerOverflowNeedsWrap(l: SizeLine, ahead: nat, held: nat, max: nat)
    requires l.Size? && l.surplus + ahead <= |l.rest| && l.size < ULONG_LIMIT
    requires held <= max < ULONG_LIMIT && (l.size + held) % ULONG_LIMIT <= max
    ensures l.size > max - held <==> l.size + held >= ULONG_LIMIT
    ensures ChunkAt(l, ahead, max - held) == Overflow ==> l.size + held >= ULONG_LIMIT
  {
    hide ChunkAt;
    OverflowIff(l, ahead, max - held);
  }

  /** On the client too, if the buffer for size lines is no larger than that of a response part: a chunk
      that does not fit behind the part so far goes into an empty one, which takes all that can have been
      read ahead. */
  lemma ClientOverflowNeedsWrap(l: SizeLine, ahead: nat, held: nat, cap: nat, max: nat)
    requires l.Size? && l.surplus + ahead <= |l.rest| && l.size < ULONG_LIMIT
    requires held <= max < ULONG_LIMIT && ahead <= cap <= max
    ensures var wraps := l.size + held >= ULONG_LIMIT && (l.size + held) % ULONG_LIMIT <= max;
            var room := if (l.size + held) % ULONG_LIMIT > max then max else max - held;
            ChunkAt(l, ahead, room) == Overflow <==> wraps && Min(l.size, ahead) > max - held
  {
    hide ChunkAt;
    OverflowIff(l, ahead, if (l.size + held) % ULONG_LIMIT > max then max else max - held);
  }

  /** So, where no sum wraps around, a bare LF is all that makes a chunk depend on what was read ahead.
      `room` is that of an empty part, or the chunk fits it. */
  lemma SteadyIffNoBareLf(stream: string, cap: nat, max: nat, room: nat)
    requires cap <= max && ReadSizeLine(stream, cap).Size?
    requires room == max || ReadSizeLine(stream, cap).size <= room
    ensures Steady(ReadSizeLine(stream, cap), MostAhead(stream, cap), room)
       <==> MostAhead(stream, cap) == 0 || ReadSizeLine(stream, cap).surplus == 0
  {
    hide ReadSizeLine;
  }

  /** At some chunk on the way, as much of it as has been read ahead exceeds the room in the part. */
  predicate Overruns(line: string, wire: string, cap: nat, held: nat, max: nat, offers: seq<nat>)
    requires |line| <= cap && held <= max
    decreases |line| + |wire|
  {
    var stream := line + wire;
    var l := ReadSizeLine(stream, cap);
    l.Size? && l.size > 0 &&
      var room := if (l.size + held) % ULONG_LIMIT > max then max else max - held;
      var ahead := Ahead(|line|, l.end, Min(cap, |stream|), offers);
      || Min(l.size, ahead) > room
      || match ChunkAt(l, ahead, room)
         case Taken(data, line', wire') => Overruns(line', wire', cap, max - room + |data|, max, Later(offers))
         case _ => false
  }

  /** Exactly then an exception leaves the client's handler. */
  lemma {:induction false} AbortedIffOverruns(line: string, wire: string, cap: nat, part: string, max: nat, offers: seq<nat>)
    requires |line| <= cap && |part| <= max
    ensures ClientDecode(line, wire, cap, part, max, offers).end == Aborted <==> Overruns(line, wire, cap, |part|, max, offers)
    decreases |line| + |wire|
  {
    hide ReadSizeLine, ChunkAt, ClientDecode;
    var l := ReadSizeLine(line + wire, cap);
    ClientPass(line, wire, cap, part, max, offers, l);
    if l.Size? && l.size > 0 {
      var (flushed, kept) := Flush(part, l.size, max);
      var ahead := Ahead(|line|, l.end, Min(cap, |line + wire|), offers);
      OverflowIff(l, ahead, max - |kept|);
      var t := ChunkAt(l, ahead, max - |kept|);
      if t.Taken? {
        AbortedIffOverruns(t.line, t.wire, cap, kept + t.data, max, Later(offers));
      }
    }
  }

  /** The same on the server, where the limit is checked first. */
  predicate ServerOverruns(line: string, wire: string, cap: nat, held: nat, max: nat, offers: seq<nat>)
    requires |line| <= cap && held <= max
    decreases |line| + |wire|
  {
    var stream := line + wire;
    var l := ReadSizeLine(stream, cap);
    l.Size? && l.size > 0 && (l.size + held) % ULONG_LIMIT <= max &&
      var ahead := Ahead(|line|, l.end, Min(cap, |stream|), offers);
      || Min(l.size, ahead) > max - held
      || match ChunkAt(l, ahead, max - held)
         case Taken(data, line', wire') => ServerOverruns(line', wire', cap, held + |data|, max, Later(offers))
         case _ => false
  }

  lemma {:induction false} ThrownIffOverruns(line: string, wire: string, cap: nat, body: string, max: nat, offers: seq<nat>)
    requires |line| <= cap && |body| <= max
    ensures ServerDecode(line, wire, cap, body, max, offers) == Thrown <==> ServerOverruns(line, wire, cap, |body|, max, offers)
    decreases |line| + |wire|
  {
    hide ReadSizeLine, ChunkAt;
    var l := ReadSizeLine(line + wire, cap);
    if l.Size? && l.size > 0 && (l.size + |body|) % ULONG_LIMIT <= max {
      var ahead := Ahead(|line|, l.end, Min(cap, |line + wire|), offers);
      OverflowIff(l, ahead, max - |body|);
      match ChunkAt(l, ahead, max - |body|)
      case Overflow =>
      case CutOff(data) =>
      case Taken(data, line', wire') => ThrownIffOverruns(line', wire', cap, body + data, max, Later(offers));
    }
  }

  /** No chunk size that is read wraps around when the size of the part so far is added; and each fits a
      part, unless the buffer for size lines is no larger than one. */
  predicate SizesFit(line: string, wire: string, cap: nat, held: nat, max: nat, offers: seq<nat>)
    requires |line| <= cap && held <= max
    decreases |line| + |wire|
  {
    var stream := line + wire;
    var l := ReadSizeLine(stream, cap);
    l.Size? && l.size > 0 ==>
      && (l.size <= max || cap <= max) && l.size + held < ULONG_LIMIT
      && var kept := if l.size + held > max then 0 else held;
         match ChunkAt(l, Ahead(|line|, l.end, Min(cap, |stream|), offers), max - kept)
         case Taken(data, line', wire') => SizesFit(line', wire', cap, kept + |data|, max, Later(offers))
         case _ => true
  }

  /** Then no exception leaves the client's handler. */
  lemma {:induction false} FittingSizesAreNotAborted(line: string, wire: string, cap: nat, part: string, max: nat, offers: seq<nat>)
    requires |line| <= cap && |part| <= max < ULONG_LIMIT && SizesFit(line, wire, cap, |part|, max, offers)
    ensures ClientDecode(line, wire, cap, part, max, offers).end != Aborted
    decreases |line| + |wire|
  {
    hide ReadSizeLine, ChunkAt;
    var l := ReadSizeLine(line + wire, cap);
    if l.Size? && l.size > 0 {
      var (flushed, kept) := Flush(part, l.size, max);
      var ahead := Ahead(|line|, l.end, Min(cap, |line + wire|), offers);
      OverflowIff(l, ahead, max - |kept|);
      match ChunkAt(l, ahead, max - |kept|)
      case Overflow =>
      case CutOff(data) =>
      case Taken(data, line', wire') => FittingSizesAreNotAborted(line', wire', cap, kept + data, max, Later(offers));
    }
  }

  // ---------- a size line that wraps around ----------

  /** A chunk that leaves room for two bytes, then the size line `-1`, which `std::stoul` reads as the
      largest number, and three more bytes. */
  ghost predicate Wrapping(wire: string, size: string, data: string, tail: string, cap: nat, max: nat) {
    && ChunkOk(Chunk(size, "", data), cap) && 18 <= cap && |data| + 2 == max < ULONG_LIMIT && |tail| == 3
    && wire == size + CRLF + (data + CRLF + ("-1" + CRLF + tail))
  }

  lemma NegativeIsRead(sign: string, digits: string, tail: string, n: nat)
    requires sign == "-" && IsNumeral(digits, n, 16) && n < ULONG_LIMIT
    requires tail == "" || (!IsNumeralChar(tail[0], 16) && tail[0] !in "xX")
    ensures Stoul(sign + (digits + tail), 16) == Some((ULONG_LIMIT - n) % ULONG_LIMIT)
  {
    hide Stoul, IsNumeral, IsNumeralChar;
    var s := sign + (digits + tail);
    assert s == "" + (sign + ("" + (digits + tail)));
    StoulReads(s, 16, "", sign, "", digits, tail, n);
  }

  lemma MinusOne(line: string)
    requires line == "-1\r"
    ensures Stoul(line, 16) == Some(ULONG_LIMIT - 1)
  {
    OneDigit('1', 1);
    NumeralCharIff('\r', 16);
    hide Stoul, IsNumeral, IsNumeralChar;
    assert line == "-" + (['1'] + ['\r']);
    NegativeIsRead("-", ['1'], ['\r'], 1);
  }

  lemma WrappingLines(wire: string, size: string, data: string, tail: string, cap: nat, max: nat, l: SizeLine)
    requires Wrapping(wire, size, data, tail, cap, max) && l == Size(ULONG_LIMIT - 1, 4, 0, tail)
    ensures ReadSizeLine(wire, cap) == Size(|data|, |size| + 2, 0, data + CRLF + ("-1" + CRLF + tail)) && |data| > 0
    ensures ReadSizeLine("-1" + CRLF + tail, cap) == l && |"-1" + CRLF + tail| == 7
  {
    hide ReadSizeLine, Stoul, IsNumeral;
    SizeLineIsRead(size, "", data + CRLF + ("-1" + CRLF + tail), |data|, cap);
    assert size + "" == size;
    assert "-1" + "\r" == "-1\r";
    MinusOne("-1" + "\r");
    CleanLine("-1", tail, cap, ULONG_LIMIT - 1);
  }

  /** With nothing read ahead, a chunk that fits is taken from the connection, and nothing is buffered. */
  lemma TakenUnbuffered(l: SizeLine, room: nat, data: string, tail: string)
    requires l.Size? && l.surplus == 0 && 0 < l.size == |data| <= room && l.rest == data + CRLF + tail
    ensures ChunkAt(l, 0, room) == Taken(data, "", tail)
  {
    assert l.rest[..0] == "" && l.rest[0..] == l.rest && l.rest[..|data|] == data && l.rest[|data| + 2..] == tail;
    assert "" + data == data;
  }

  lemma WrappingTaken(l: SizeLine, tail: string)
    requires l == Size(ULONG_LIMIT - 1, 4, 0, tail) && |tail| == 3
    ensures ChunkAt(l, 0, 2) == CutOff(tail[..2]) && ChunkAt(l, 3, 2) == Overflow
  {
    OverflowIff(l, 3, 2);
    assert l.rest[..0] == "" && l.rest[0..] == tail && "" + tail[..2] == tail[..2];
  }

  /** Such a step in either decoder. */
  lemma UnbufferedStep(line: string, wire: string, cap: nat, body: string, max: nat, offers: seq<nat>, l: SizeLine, data: string, tail: string)
    requires ReadSizeLine(wire, cap) == l && l.Size? && l.surplus == 0 && 0 < l.size == |data| && l.rest == data + CRLF + tail
    requires line == "" && |body| + |data| <= max && |body| + |data| < ULONG_LIMIT && (offers == [] || offers[0] == 0)
    ensures ServerDecode(line, wire, cap, body, max, offers) == ServerDecode(line, tail, cap, body + data, max, Later(offers))
    ensures ServerUnread(line, wire, cap, |body|, max, offers) == ServerUnread(line, tail, cap, |body + data|, max, Later(offers))
    ensures ClientDecode(line, wire, cap, body, max, offers) == ClientDecode(line, tail, cap, body + data, max, Later(offers))
  {
    TakenUnbuffered(l, max - |body|, data, tail);
    hide ReadSizeLine, ChunkAt, ServerDecode, ServerUnread, ClientDecode, Later;
    StepOnWire(line, wire, cap, body, max, offers, l, data, tail);
  }

  lemma StepOnWire(line: string, wire: string, cap: nat, body: string, max: nat, offers: seq<nat>, l: SizeLine, data: string, tail: string)
    requires ReadSizeLine(wire, cap) == l && l.Size? && 0 < l.size && l.size + |body| <= max && l.size + |body| < ULONG_LIMIT
    requires line == "" && (offers == [] || offers[0] == 0) && l.surplus <= |l.rest|
    requires |body| + |data| <= max && ChunkAt(l, 0, max - |body|) == Taken(data, line, tail)
    ensures ServerDecode(line, wire, cap, body, max, offers) == ServerDecode(line, tail, cap, body + data, max, Later(offers))
    ensures ServerUnread(line, wire, cap, |body|, max, offers) == ServerUnread(line, tail, cap, |body + data|, max, Later(offers))
    ensures ClientDecode(line, wire, cap, body, max, offers) == ClientDecode(line, tail, cap, body + data, max, Later(offers))
  {
    hide ReadSizeLine, ChunkAt, ServerDecode, ServerUnread, ClientDecode, Later;
    assert line + wire == wire;
    var most := Min(cap, |wire|);
    assert Ahead(0, l.end, most, offers) == 0;
    ServerPass(line, wire, cap, body, max, offers, l);
    ClientTakes(line, wire, cap, body, max, offers, l);
  }

  /** A chunk that fits behind the part so far. */
  lemma ClientTakes(line: string, wire: string, cap: nat, part: string, max: nat, offers: seq<nat>, l: SizeLine)
    requires |line| <= cap && |part| <= max && l == ReadSizeLine(line + wire, cap)
    requires l.Size? && l.size > 0 && (l.size + |part|) % ULONG_LIMIT <= max
    ensures var t := ChunkAt(l, Ahead(|line|, l.end, Min(cap, |line + wire|), offers), max - |part|);
            t.Taken? ==>
              && |t.line| <= cap
              && ClientDecode(line, wire, cap, part, max, offers) == ClientDecode(t.line, t.wire, cap, part + t.data, max, Later(offers))
  {
    hide ReadSizeLine, ChunkAt, ClientDecode;
    ClientPass(line, wire, cap, part, max, offers, l);
    var t := ChunkAt(l, Ahead(|line|, l.end, Min(cap, |line + wire|), offers), max - |part|);
    if t.Taken? {
      var next := ClientDecode(t.line, t.wire, cap, part + t.data, max, Later(offers));
      assert [] + next.calls == next.calls;
    }
  }

  /** For every number of bytes there is room for, some splitting discards just so many behind the line
      that ends the message. */
  lemma {:induction false} DiscardsAny(cs: seq<Chunk>, zero: string, ext: string, rest: string, cap: nat, line: string, body: string,
                                       max: nat, offers: seq<nat>, k: nat)
    requires WireOk(cs, zero, ext, cap) && line == "" && |body| + |Payload(cs)| <= max && |body| + |Payload(cs)| < ULONG_LIMIT
    requires |offers| == |cs| + 1 && (forall i :: 0 <= i < |cs| ==> offers[i] == 0) && offers[|cs|] == k
    requires k <= |rest| && |zero + ext| + 2 + k <= cap
    ensures ServerUnread(line, Wire(cs, zero, ext, rest), cap, |body|, max, offers) == rest[k..]
    decreases cs
  {
    hide ReadSizeLine, Wire, ChunkOk, SizeLineOk, ChunkAt, WireOk;
    var wire := Wire(cs, zero, ext, rest);
    if cs == [] {
      LastChunk(zero, ext, rest, cap);
      assert line + wire == wire;
    } else {
      hide ServerUnread, ServerDecode;
      FirstChunk(cs, zero, ext, rest, cap);
      var data, l := cs[0].data, ReadSizeLine(wire, cap);
      UnbufferedStep(line, wire, cap, body, max, offers, l, data, Wire(cs[1..], zero, ext, rest));
      DiscardsAny(cs[1..], zero, ext, rest, cap, line, body + data, max, Later(offers), k);
    }
  }

  /** One message, two splittings, on either side: if the bytes behind that size line have been read
      ahead, `prepare` throws out of the handler; if not, two of them are read and then the connection
      ends. */
  lemma WrappedSizeDependsOnReads(wire: string, size: string, data: string, tail: string, cap: nat, max: nat,
                                  ahead: seq<nat>, none: seq<nat>)
    requires Wrapping(wire, size, data, tail, cap, max) && ahead == [0, 3] && none == [0, 0]
    ensures ClientDecode("", wire, cap, "", max, ahead) == ClientOutcome([], Aborted)
    ensures ClientDecode("", wire, cap, "", max, none) == ClientOutcome([Delivery(data + tail[..2], true, TransportError)], Stopped)
    ensures ServerDecode("", wire, cap, "", max, ahead) == Thrown
    ensures ServerDecode("", wire, cap, "", max, none) == Lost
  {
    var l, second := Size(ULONG_LIMIT - 1, 4, 0, tail), "-1" + CRLF + tail;
    WrappingLines(wire, size, data, tail, cap, max, l);
    WrappingTaken(l, tail);
    hide ServerDecode, ClientDecode, ReadSizeLine, ChunkAt, ChunkOk;
    var first := Size(|data|, |size| + 2, 0, data + CRLF + second);
    assert "" + data == data && Later(ahead) == [3] && Later(none) == [0];
    UnbufferedStep("", wire, cap, "", max, ahead, first, data, second);
    UnbufferedStep("", wire, cap, "", max, none, first, data, second);
    WrappingEnds(second, data, cap, max, Later(ahead), l, 3);
    WrappingEnds(second, data, cap, max, Later(none), l, 0);
  }

  lemma WrappingEnds(wire: string, data: string, cap: nat, max: nat, offers: seq<nat>, l: SizeLine, ahead: nat)
    requires ReadSizeLine(wire, cap) == l && l.Size? && l.size == ULONG_LIMIT - 1 && 0 < |data| && |data| + 2 == max < ULONG_LIMIT
    requires ahead == Ahead(0, l.end, Min(cap, |wire|), offers)
    ensures match ChunkAt(l, ahead, 2)
            case Overflow =>
              && ClientDecode("", wire, cap, data, max, offers) == ClientOutcome([], Aborted)
              && ServerDecode("", wire, cap, data, max, offers) == Thrown
            case CutOff(more) =>
              && ClientDecode("", wire, cap, data, max, offers) == ClientOutcome([Delivery(data + more, true, TransportError)], Stopped)
              && ServerDecode("", wire, cap, data, max, offers) == Lost
            case Taken(_, _, _) => true
  {
    hide ReadSizeLine, ChunkAt;
    assert "" + wire == wire;
    assert (l.size + |data|) % ULONG_LIMIT == |data| - 1;
    assert max - |data| == 2;
  }

  // ---------- bodies without chunks ----------

  /** One completed read of a body that is not chunked: the last call is made, or the full buffer is
      delivered and `remaining` bytes are read into an empty one. */
  datatype Pass = Over(call: Delivery, rest: string) | Again(call: Delivery, rest: string, remaining: nat)

  /** The handler of `read_content` with a known length. */
  function ContentPass(stream: string, part: string, remaining: nat, max: nat): Pass
    requires |part| <= max
  {
    var n := Min(remaining, max - |part|);
    if |stream| < n then Over(Delivery(part + stream, true, TransportError), "")
    else if |part| + n == max && remaining > n then Again(Delivery(part + stream[..n], false, NoError), stream[n..], remaining - n)
    else Over(Delivery(part + stream[..n], true, NoError), stream[n..])
  }

  /** A pass leads back to where it started exactly if the buffer has size zero and bytes are expected:
      then the reader never ends. */
  lemma PassGetsNowhere(stream: string, remaining: nat, max: nat)
    ensures ContentPass(stream, "", remaining, max) == Again(Delivery("", false, NoError), stream, remaining)
       <==> max == 0 && remaining > 0
  {
    assert stream[0..] == stream && "" + stream[..0] == "";
  }

  /** The calls made while `remaining` bytes are read into a buffer of `max` bytes that holds `part`. */
  function ContentDecode(stream: string, part: string, remaining: nat, max: nat): (seq<Delivery>, string)
    requires |part| <= max && (0 < max || remaining == 0)
    decreases remaining, |part|
  {
    match ContentPass(stream, part, remaining, max)
    case Over(call, rest) => ([call], rest)
    case Again(call, rest, more) =>
      var (calls, left) := ContentDecode(rest, "", more, max);
      ([call] + calls, left)
  }

  /** How the connection ends. */
  datatype Closing = EndOfFile | Broken

  /** The handler of `read_content` for a body that ends with the connection: end of file is no error. */
  function ClosePass(stream: string, part: string, max: nat, closing: Closing): Pass
    requires |part| <= max
  {
    var n := max - |part|;
    if |stream| < n then Over(Delivery(part + stream, true, if closing.EndOfFile? then NoError else TransportError), "")
    else Again(Delivery(part + stream[..n], false, NoError), stream[n..], 0)
  }

  /** The calls made while the rest of the connection is read into a buffer of `max` bytes. */
  function CloseDecode(stream: string, part: string, max: nat, closing: Closing): seq<Delivery>
    requires |part| <= max && 0 < max
    decreases |stream|, |part|
  {
    match ClosePass(stream, part, max, closing)
    case Over(call, rest) => [call]
    case Again(call, rest, _) => [call] + CloseDecode(rest, "", max, closing)
  }

  /** A body of known length is delivered whole, in parts that fit. */
  lemma {:induction false} ContentDelivered(stream: string, part: string, remaining: nat, max: nat)
    requires |part| <= max && 0 < max && remaining <= |stream|
    ensures var (calls, rest) := ContentDecode(stream, part, remaining, max);
            && WellDelivered(calls, max)
            && Content(calls) == part + stream[..remaining]
            && rest == stream[remaining..]
    decreases remaining, |part|
  {
    hide Delivered, Content;
    var n := Min(remaining, max - |part|);
    var first := part + stream[..n];
    if |part| + n == max && remaining > n {
      ContentDelivered(stream[n..], "", remaining - n, max);
      DeliveredCons(Delivery(first, false, NoError), ContentDecode(stream[n..], "", remaining - n, max).0, max, NoError);
      assert first + ("" + stream[n..][..remaining - n]) == part + stream[..remaining];
      assert stream[n..][remaining - n..] == stream[remaining..];
    } else {
      OneDelivery(first, max, NoError);
    }
  }

  /** A body that ends with the connection is delivered whole, in parts that fit; the last call reports
      success exactly if the connection ended by end of file. */
  lemma {:induction false} CloseDelivered(stream: string, part: string, max: nat, closing: Closing)
    requires |part| <= max && 0 < max
    ensures Delivered(CloseDecode(stream, part, max, closing), max, if closing == EndOfFile then NoError else TransportError)
    ensures Content(CloseDecode(stream, part, max, closing)) == part + stream
    decreases |stream|, |part|
  {
    hide Delivered, Content;
    var n := max - |part|;
    var final := if closing == EndOfFile then NoError else TransportError;
    if |stream| < n {
      OneDelivery(part + stream, max, final);
    } else {
      CloseDelivered(stream[n..], "", max, closing);
      DeliveredCons(Delivery(part + stream[..n], false, NoError), CloseDecode(stream[n..], "", max, closing), max, final);
      assert part + stream[..n] + ("" + stream[n..]) == part + stream;
    }
  }

  /** All parts but the last fill the buffer. */
  ghost predicate FullParts(calls: seq<Delivery>, max: nat) {
    calls != [] && forall i :: 0 <= i < |calls| - 1 ==> |calls[i].content| == max
  }

  lemma FullPartsCons(d: Delivery, calls: seq<Delivery>, max: nat)
    requires FullParts(calls, max) && |d.content| == max
    ensures FullParts([d] + calls, max) && ([d] + calls)[|calls|] == calls[|calls| - 1]
  {
  }

  /** A body of known length is delivered in full parts and a last one, which has something in it if there is
      anything at all. */
  lemma {:induction false} ContentPartsAreFull(stream: string, part: string, remaining: nat, max: nat)
    requires |part| <= max && 0 < max && 0 < remaining <= |stream| && |part| < max
    ensures var calls := ContentDecode(stream, part, remaining, max).0;
            FullParts(calls, max) && calls[|calls| - 1].content != ""
    decreases remaining, |part|
  {
    var n := Min(remaining, max - |part|);
    if |part| + n == max && remaining > n {
      var first := Delivery(part + stream[..n], false, NoError);
      ContentPartsAreFull(stream[n..], "", remaining - n, max);
      FullPartsCons(first, ContentDecode(stream[n..], "", remaining - n, max).0, max);
    }
  }

  /** A body up to the end of the connection: the last part never fills the buffer. */
  lemma {:induction false} ClosePartsAreFull(stream: string, part: string, max: nat, closing: Closing)
    requires |part| <= max && 0 < max
    ensures var calls := CloseDecode(stream, part, max, closing);
            FullParts(calls, max) && |calls[|calls| - 1].content| < max
    decreases |stream|, |part|
  {
    var n := max - |part|;
    if |stream| >= n {
      var first := Delivery(part + stream[..n], false, NoError);
      ClosePartsAreFull(stream[n..], "", max, closing);
      FullPartsCons(first, CloseDecode(stream[n..], "", max, closing), max);
    }
  }

  // ---------- Content-Length ----------

  /** The bytes of a message behind its head: the last `additional` bytes of what is `left` in the
      buffer, and then the stream. */
  function Behind(left: string, additional: nat, stream: string): string
    requires additional <= |left|
  {
    left[|left| - additional..] + stream
  }

  /** The Content-Length branch of the client's `read`. `left` is what parsing the head left in the
      buffer, `additional` how many bytes had been read behind the end of the head: the code counts
      what is missing by the second and fills up the first. */
  function LengthDecode(left: string, additional: nat, stream: string, length: nat, max: nat): (seq<Delivery>, string)
    requires |left| <= max && (0 < max || length <= additional)
  {
    if length > additional then ContentDecode(stream, left, length - additional, max)
    else ([Delivery(left, true, NoError)], stream)
  }

  /** Exactly the message's content is delivered, and as many bytes as announced, if and only if the
      parser left nothing of the head and no more than the content had been read along with it. */
  lemma LengthDelivered(left: string, additional: nat, stream: string, length: nat, max: nat)
    requires additional <= |left| <= max && 0 < max && length <= additional + |stream|
    ensures var (calls, rest) := LengthDecode(left, additional, stream, length, max);
            var message := Behind(left, additional, stream);
            && WellDelivered(calls, max)
            && (Content(calls) == message[..length] <==> |left| == additional && additional <= length)
            && (|Content(calls)| == length <==> |left| == additional && additional <= length)
            && (|left| == additional && additional <= length ==> rest == message[length..])
  {
    hide Delivered, Content, ContentDecode;
    if length > additional {
      ContentDelivered(stream, left, length - additional, max);
      if |left| == additional {
        assert Behind(left, additional, stream) == left + stream;
        assert (left + stream)[..length] == left + stream[..length - additional];
        assert (left + stream)[length..] == stream[length - additional..];
      }
    } else {
      OneDelivery(left, max, NoError);
      if length == |left| {
        assert Behind(left, additional, stream) == left + stream;
        assert (left + stream)[..length] == left && (left + stream)[length..] == stream;
      }
    }
  }

  /** The Content-Length branch of the server's `read`; the buffer takes no more than it has room for. */
  function ServerContent(left: string, additional: nat, stream: string, length: nat, max: nat): ServerOutcome
    requires |left| <= max
  {
    if length > max then TooLarge
    else if length <= additional then Complete(left, stream)
    else
      var n := Min(length - additional, max - |left|);
      if |stream| < n then Lost else Complete(left + stream[..n], stream[n..])
  }

  /** The server hands over exactly the message's content, with what follows it unread, under the same
      condition. As many bytes as announced it hands over also when the announced length is the size
      of its buffer. */
  lemma ServerContentDelivered(left: string, additional: nat, stream: string, length: nat, max: nat)
    requires additional <= |left| <= max && length <= max && length <= additional + |stream|
    ensures var outcome := ServerContent(left, additional, stream, length, max);
            var message := Behind(left, additional, stream);
            && outcome.Complete?
            && (outcome == Complete(message[..length], message[length..]) <==> |left| == additional && additional <= length)
            && (|outcome.body| == length <==> additional <= length && (|left| == additional || length == max))
  {
    var message := Behind(left, additional, stream);
    if |left| == additional <= length {
      assert message == left + stream;
      assert message[..length] == left + stream[..length - additional];
      assert message[length..] == stream[length - additional..];
      assert left + stream[..0] == left && stream[0..] == stream;
    } else if additional < length {
      assert |message[length..]| < |ServerContent(left, additional, stream, length, max).rest|
        || |message[..length]| < |ServerContent(left, additional, stream, length, max).body|;
    }
  }

  /** When the connection ends before all bytes announced have arrived, what has arrived is delivered, and
      then the error. */
  lemma {:induction false} ContentCutOff(stream: string, part: string, remaining: nat, max: nat)
    requires |part| <= max && 0 < max && remaining > |stream|
    ensures var (calls, rest) := ContentDecode(stream, part, remaining, max);
            && Delivered(calls, max, TransportError) && Content(calls) == part + stream && rest == ""
    decreases remaining, |part|
  {
    hide Delivered, Content;
    var n := Min(remaining, max - |part|);
    if |stream| < n {
      OneDelivery(part + stream, max, TransportError);
    } else {
      var first := part + stream[..n];
      ContentCutOff(stream[n..], "", remaining - n, max);
      DeliveredCons(Delivery(first, false, NoError), ContentDecode(stream[n..], "", remaining - n, max).0, max, TransportError);
      assert first + ("" + stream[n..]) == part + stream;
    }
  }

  lemma LengthCutOff(left: string, additional: nat, stream: string, length: nat, max: nat)
    requires |left| <= max && 0 < max && length > additional + |stream|
    ensures var (calls, _) := LengthDecode(left, additional, stream, length, max);
            Delivered(calls, max, TransportError) && Content(calls) == left + stream
  {
    hide Delivered, Content, ContentDecode;
    ContentCutOff(stream, left, length - additional, max);
  }

  /** The server gives up, or refuses a length above its limit whether or not it arrives. */
  lemma ServerContentCutOff(left: string, additional: nat, stream: string, length: nat, max: nat)
    requires |left| <= max && |left| == additional && length > additional + |stream|
    ensures ServerContent(left, additional, stream, length, max) == if length > max then TooLarge else Lost
  {
  }
}
