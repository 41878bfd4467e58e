/** `HeaderEndMatch`: finds the end of a header that may use CRLF or bare LF line ends, over input
    that arrives in pieces. */
module HeaderEnd {
  import opened Wrappers

  // ---------- where a header ends; `n` is a position in `s` ----------

  /** Number of `\r` just before `n`. */
  function CrRun(s: string, n: nat): nat
    requires n <= |s|
  {
    if n > 0 && s[n - 1] == '\r' then 1 + CrRun(s, n - 1) else 0
  }

  /** Just behind an `\n` that follows an odd number of `\r`. */
  predicate BehindOddCrLf(s: string, n: nat)
    requires n <= |s|
  {
    n >= 2 && s[n - 1] == '\n' && CrRun(s, n - 1) % 2 == 1
  }

  /** Just behind `\n\n`, or behind `\r\n\r\n` whose first `\r` ends a run of odd length. */
  predicate EndsHeader(s: string, n: nat)
    requires n <= |s|
  {
    n >= 2 && s[n - 1] == '\n' && (s[n - 2] == '\n' || (s[n - 2] == '\r' && BehindOddCrLf(s, n - 2)))
  }

  /** No header ends at or before `n`. */
  ghost predicate Open(s: string, n: nat)
    requires n <= |s|
  {
    forall m :: 0 <= m <= n ==> !EndsHeader(s, m)
  }

  ghost predicate IsFirstEnd(s: string, n: nat) {
    0 < n <= |s| && EndsHeader(s, n) && Open(s, n - 1)
  }

  // ---------- the automaton ----------

  datatype State = State(crlfcrlf: nat, lflf: nat)

  /** One iteration of the loop; `None` is the return with a match. */
  function Step(q: State, c: char): Option<State> {
    if c == '\n' then
      var k := if q.crlfcrlf == 1 then 2 else if q.crlfcrlf == 2 then 0 else q.crlfcrlf;
      if q.crlfcrlf == 3 || q.lflf == 1 then None else Some(State(k, q.lflf + 1))
    else if c == '\r' then
      Some(State(if q.crlfcrlf == 0 then 1 else if q.crlfcrlf == 2 then 3 else 0, 0))
    else Some(State(0, 0))
  }

  /** How much of each ending lies before `n`. */
  function Progress(s: string, n: nat): State
    requires n <= |s|
  {
    State(
      if n > 0 && s[n - 1] == '\r' && BehindOddCrLf(s, n - 1) then 3
      else if BehindOddCrLf(s, n) then 2
      else CrRun(s, n) % 2,
      if n > 0 && s[n - 1] == '\n' then 1 else 0)
  }

  /** The counters always are the progress made, and the automaton stops exactly at a header end. */
  lemma StepTracksProgress(s: string, n: nat)
    requires n < |s| && !EndsHeader(s, n)
    ensures Step(Progress(s, n), s[n]) == if EndsHeader(s, n + 1) then None else Some(Progress(s, n + 1))
  {
    if n > 0 && s[n - 1] == '\r' && BehindOddCrLf(s, n - 1) {
      assert CrRun(s, n) == 1;
    }
  }

  /** Input that follows `n` does not change what lies before it. */
  lemma {:induction false} CrRunPrefix(s: string, t: string, n: nat)
    requires s <= t && n <= |s|
    ensures CrRun(s, n) == CrRun(t, n)
  {
    if n > 0 {
      CrRunPrefix(s, t, n - 1);
    }
  }

  lemma PrefixAgrees(s: string, t: string, n: nat)
    requires s <= t && n <= |s|
    ensures Progress(s, n) == Progress(t, n) && EndsHeader(s, n) == EndsHeader(t, n)
  {
    forall m | 0 <= m <= n ensures CrRun(s, m) == CrRun(t, m) {
      CrRunPrefix(s, t, m);
    }
  }

  lemma OpenPrefix(s: string, t: string, n: nat)
    requires s <= t && n <= |s|
    ensures Open(s, n) <==> Open(t, n)
  {
    forall m | 0 <= m <= n ensures EndsHeader(s, m) == EndsHeader(t, m) {
      PrefixAgrees(s, t, m);
    }
  }

  class HeaderEndMatch {
    var crlfcrlf: nat
    var lflf: nat
    ghost var seen: string   // the input of all calls so far, none of which matched

    ghost predicate Valid()
      reads this
    {
      Open(seen, |seen|) && State(crlfcrlf, lflf) == Progress(seen, |seen|)
    }

    constructor ()
      ensures Valid() && seen == ""
    {
      crlfcrlf := 0;
      lflf := 0;
      seen := "";
    }

    /** Scans `input`, which follows what was seen: stops just behind the first header end of the
        whole input, or consumes everything if there is none. */
    method Match(input: string) returns (it: nat, matched: bool)
      requires Valid()
      modifies this
      ensures it <= |input| && seen == old(seen) + input
      ensures matched ==> IsFirstEnd(seen, |old(seen)| + it)
      ensures !matched ==> it == |input| && Valid()
    {
      ghost var before := |seen|;
      PrefixAgrees(seen, seen + input, before);
      OpenPrefix(seen, seen + input, before);
      seen := seen + input;
      it := 0;
      while it != |input|
        invariant it <= |input| && seen == old(seen) + input
        invariant Open(seen, before + it) && State(crlfcrlf, lflf) == Progress(seen, before + it)
        decreases |input| - it
      {
        StepTracksProgress(seen, before + it);
        if input[it] == '\n' {
          if crlfcrlf == 1 {
            crlfcrlf := crlfcrlf + 1;
          } else if crlfcrlf == 2 {
            crlfcrlf := 0;
          } else if crlfcrlf == 3 {
            return it + 1, true;
          }
          if lflf == 0 {
            lflf := lflf + 1;
          } else if lflf == 1 {
            return it + 1, true;
          }
        } else if input[it] == '\r' {
          if crlfcrlf == 0 {
            crlfcrlf := crlfcrlf + 1;
          } else if crlfcrlf == 2 {
            crlfcrlf := crlfcrlf + 1;
          } else {
            crlfcrlf := 0;
          }
          lflf := 0;
        } else {
          crlfcrlf := 0;
          lflf := 0;
        }
        it := it + 1;
      }
      matched := false;
    }
  }

  function Joined(pieces: seq<string>): string {
    if pieces == [] then "" else Joined(pieces[..|pieces| - 1]) + pieces[|pieces| - 1]
  }

  /** However the input is cut into calls, the match found is the first header end of the joined
      input; without a match there is none. */
  method MatchPieces(pieces: seq<string>) returns (position: nat, matched: bool)
    ensures matched ==> IsFirstEnd(Joined(pieces), position)
    ensures !matched ==> Open(Joined(pieces), |Joined(pieces)|)
  {
    var m := new HeaderEndMatch();
    position, matched := 0, false;
    for i := 0 to |pieces|
      invariant !matched ==> m.Valid() && m.seen == Joined(pieces[..i]) && position == |m.seen|
      invariant matched ==> IsFirstEnd(Joined(pieces[..i]), position)
    {
      assert pieces[..i + 1][..i] == pieces[..i];
      if matched {
        FirstEndStays(Joined(pieces[..i]), Joined(pieces[..i + 1]), position);
      } else {
        var it;
        it, matched := m.Match(pieces[i]);
        position := position + it;
      }
    }
    assert pieces[..|pieces|] == pieces;
  }

  lemma FirstEndStays(s: string, t: string, n: nat)
    requires IsFirstEnd(s, n) && s <= t
    ensures IsFirstEnd(t, n)
  {
    PrefixAgrees(s, t, n);
    OpenPrefix(s, t, n - 1);
  }

  // ---------- what the header end means ----------

  /** There is one first header end, so the answer above is the same for every way of cutting. */
  lemma FirstEndIsUnique(s: string, m: nat, n: nat)
    requires IsFirstEnd(s, m) && IsFirstEnd(s, n)
    ensures m == n
  {
    assert EndsHeader(s, m) && EndsHeader(s, n);
  }

  predicate BehindLfLf(s: string, n: nat)
    requires n <= |s|
  {
    n >= 2 && s[n - 2] == '\n' && s[n - 1] == '\n'
  }

  predicate BehindCrLfCrLf(s: string, n: nat)
    requires n <= |s|
  {
    n >= 4 && s[n - 4] == '\r' && s[n - 3] == '\n' && s[n - 2] == '\r' && s[n - 1] == '\n'
  }

  /** Every match is just behind `\n\n` or `\r\n\r\n`. */
  lemma EndIsPlain(s: string, n: nat)
    requires n <= |s| && EndsHeader(s, n)
    ensures BehindLfLf(s, n) || BehindCrLfCrLf(s, n)
  {
    if s[n - 2] == '\r' {
      assert CrRun(s, n - 3) > 0;
    }
  }

  /** A match never lies behind an `\n\n`, nor behind an `\r\n\r\n` whose first `\r` is not itself
      preceded by `\r`. */
  lemma NeverRunsPast(s: string, n: nat, k: nat)
    requires IsFirstEnd(s, n) && k <= |s|
    requires BehindLfLf(s, k) || (BehindCrLfCrLf(s, k) && (k == 4 || s[k - 5] != '\r'))
    ensures n <= k
  {
    if !BehindLfLf(s, k) {
      assert CrRun(s, k - 4) == 0;
      assert CrRun(s, k - 3) == 1;
    }
    assert EndsHeader(s, k);
  }

  /** The reset to 0 on a second `\r` is visible: `\r\r\n\r\n` is not taken for a header end. */
  lemma EvenRunIsNoEnd()
    ensures Open("\r\r\n\r\n", 5)
  {
    var s := "\r\r\n\r\n";
    assert CrRun(s, 2) == 1 + CrRun(s, 1) && CrRun(s, 1) == 1 + CrRun(s, 0);
  }
}
