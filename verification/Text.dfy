/** Byte strings and the pieces of the C and C++ libraries that the HTTP code calls on them:
    `std::string::find`, `std::getline`, `std::stoul`, `std::strtol` and `std::to_string`. */
module Text {
  import opened Wrappers

  /** One byte of a C++ `std::string`. */
  type Byte = c: char | c < '\U{0100}' witness 'a'

  const CRLF := "\r\n"
  const ULONG_LIMIT: nat := 0x1_0000_0000_0000_0000

  // ---------- searching ----------

  /** `s.find(c)`: the first position of `c`. */
  function Find(s: string, c: char): (r: Option<nat>)
    ensures r.Some? ==> r.value < |s| && s[r.value] == c
  {
    if s == "" then None
    else if s[0] == c then Some(0)
    else
      match Find(s[1..], c)
      case None => None
      case Some(k) => Some(k + 1)
  }

  lemma {:induction false} FindIsFirst(s: string, c: char)
    ensures Find(s, c) == None ==> c !in s
    ensures Find(s, c).Some? ==> c !in s[..Find(s, c).value]
  {
    if s != "" && s[0] != c {
      FindIsFirst(s[1..], c);
      assert s == [s[0]] + s[1..];
      match Find(s[1..], c) {
        case None =>
        case Some(k) => assert s[..k + 1] == [s[0]] + s[1..][..k];
      }
    }
  }

  lemma {:induction false} FindNone(s: string, c: char)
    requires c !in s
    ensures Find(s, c) == None
  {
    if s != "" {
      FindNone(s[1..], c);
    }
  }

  lemma FindAfter(a: string, c: char, b: string)
    requires c !in a
    ensures Find(a + [c] + b, c) == Some(|a|)
  {
    if a != "" {
      FindAfter(a[1..], c, b);
      assert (a + [c] + b)[1..] == a[1..] + [c] + b;
    }
  }

  /** The last position of `c`. */
  function FindLast(s: string, c: char): (r: Option<nat>)
    ensures r.Some? ==> r.value < |s| && s[r.value] == c
  {
    if s == "" then None
    else if s[|s| - 1] == c then Some(|s| - 1)
    else FindLast(s[..|s| - 1], c)
  }

  lemma FindLastOfNone(c: char)
    ensures FindLast("", c) == None
  {
  }

  lemma FindLastStep(s: string, c: char, x: char)
    ensures FindLast(s + [x], c) == if x == c then Some(|s|) else FindLast(s, c)
  {
    assert (s + [x])[..|s|] == s;
  }

  lemma {:induction false} FindLastIsLast(s: string, c: char)
    ensures FindLast(s, c) == None ==> c !in s
    ensures FindLast(s, c).Some? ==> c !in s[FindLast(s, c).value + 1..]
  {
    if s != "" && s[|s| - 1] != c {
      var init := s[..|s| - 1];
      FindLastIsLast(init, c);
      assert s == init + [s[|s| - 1]];
      match FindLast(init, c) {
        case None =>
        case Some(k) => assert s[k + 1..] == init[k + 1..] + [s[|s| - 1]];
      }
    }
  }

  lemma {:induction false} FindLastBefore(a: string, c: char, b: string)
    requires c !in b
    ensures FindLast(a + [c] + b, c) == Some(|a|)
  {
    var s := a + [c] + b;
    if b != "" {
      assert s[|s| - 1] == b[|b| - 1] && b[|b| - 1] in b;
      assert s[..|s| - 1] == a + [c] + b[..|b| - 1];
      FindLastBefore(a, c, b[..|b| - 1]);
    }
  }

  // ---------- getline ----------

  datatype Line = Line(text: string, rest: string)

  /** `std::getline(stream, line)` on a stream holding `s`: fails only on an empty stream; the
      newline is extracted and dropped; a last line without newline is still a line. */
  function GetLine(s: string): (r: Option<Line>)
    ensures r == None <==> s == ""
    ensures r.Some? ==> '\n' !in r.value.text && |r.value.rest| < |s|
    ensures r.Some? ==> s == r.value.text + "\n" + r.value.rest || (s == r.value.text && r.value.rest == "")
  {
    if s == "" then None
    else
      FindIsFirst(s, '\n');
      match Find(s, '\n')
      case None => Some(Line(s, ""))
      case Some(k) => Some(Line(s[..k], s[k + 1..]))
  }

  lemma GetLineOf(text: string, rest: string)
    requires '\n' !in text
    ensures GetLine(text + "\n" + rest) == Some(Line(text, rest))
  {
    FindAfter(text, '\n', rest);
    var s := text + "\n" + rest;
    assert s == text + ['\n'] + rest;
    assert s[..|text|] == text;
    assert s[|text| + 1..] == rest;
  }

  // ---------- numbers ----------

  predicate IsSpace(c: char) {
    c == ' ' || '\t' <= c <= '\r'
  }

  /** The value of a digit in any base up to sixteen. */
  function DigitValue(c: char): (r: Option<nat>)
    ensures r.Some? ==> r.value < 16
  {
    if '0' <= c <= '9' then Some((c - '0') as nat)
    else if 'a' <= c <= 'f' then Some((c - 'a') as nat + 10)
    else if 'A' <= c <= 'F' then Some((c - 'A') as nat + 10)
    else None
  }

  predicate IsDigit(c: char, base: nat) {
    DigitValue(c).Some? && DigitValue(c).value < base
  }

  predicate AllDigits(s: string, base: nat) {
    forall i :: 0 <= i < |s| ==> IsDigit(s[i], base)
  }

  function Value(digits: string, base: nat): nat
    requires AllDigits(digits, base)
  {
    if digits == "" then 0
    else Value(digits[..|digits| - 1], base) * base + DigitValue(digits[|digits| - 1]).value
  }

  function DropSpaces(s: string): string {
    if s != "" && IsSpace(s[0]) then DropSpaces(s[1..]) else s
  }

  function LeadingDigits(s: string, base: nat): (r: string)
    ensures r <= s && AllDigits(r, base)
    ensures |r| < |s| ==> !IsDigit(s[|r|], base)
  {
    if s != "" && IsDigit(s[0], base) then [s[0]] + LeadingDigits(s[1..], base) else ""
  }

  datatype Numeral = Numeral(negative: bool, digits: string)

  /** What `strtol` and `strtoul` recognise: white space, a sign, `0x` in base sixteen when a
      hexadecimal digit follows it, then digits up to the first other character. */
  function Scan(s: string, base: nat): (r: Numeral)
    ensures AllDigits(r.digits, base)
  {
    var t := DropSpaces(s);
    var negative := t != "" && t[0] == '-';
    var u := if t != "" && (t[0] == '-' || t[0] == '+') then t[1..] else t;
    var v := if base == 16 && |u| >= 3 && u[0] == '0' && (u[1] == 'x' || u[1] == 'X') && IsDigit(u[2], 16) then u[2..] else u;
    Numeral(negative, LeadingDigits(v, base))
  }

  /** `std::stoul(s, 0, base)`; `None` stands for either exception it throws. */
  function Stoul(s: string, base: nat): (r: Option<nat>)
    ensures r.Some? ==> r.value < ULONG_LIMIT
  {
    var n := Scan(s, base);
    if n.digits == "" then None
    else
      var v := Value(n.digits, base);
      if v >= ULONG_LIMIT then None
      else Some(if n.negative then (ULONG_LIMIT - v) % ULONG_LIMIT else v)
  }

  lemma LeadingDigitsOf(digits: string, tail: string, base: nat)
    requires AllDigits(digits, base) && (tail == "" || !IsDigit(tail[0], base))
    ensures LeadingDigits(digits + tail, base) == digits
  {
    if digits == "" {
      assert digits + tail == tail;
    } else {
      assert (digits + tail)[1..] == digits[1..] + tail;
      LeadingDigitsOf(digits[1..], tail, base);
    }
  }

  /** Reading digits that end at a character which is neither a digit nor the `x` of a `0x` prefix. */
  lemma StoulOfDigits(digits: string, tail: string, base: nat)
    requires 2 <= base <= 16
    requires digits != "" && AllDigits(digits, base)
    requires tail == "" || (!IsDigit(tail[0], base) && tail[0] != 'x' && tail[0] != 'X')
    ensures Scan(digits + tail, base) == Numeral(false, digits)
    ensures Value(digits, base) < ULONG_LIMIT ==> Stoul(digits + tail, base) == Some(Value(digits, base))
  {
    NoHexPrefix(digits, tail, base);
    LeadingDigitsOf(digits, tail, base);
    StartsWithDigit(digits + tail, base);
  }

  lemma StartsWithDigit(s: string, base: nat)
    requires s != "" && IsDigit(s[0], base)
    requires |s| >= 2 ==> s[1] != 'x' && s[1] != 'X'
    ensures Scan(s, base) == Numeral(false, LeadingDigits(s, base))
  {
    DigitIsNoSign(s[0], base);
    hide IsDigit, IsSpace, LeadingDigits, Value;
    assert DropSpaces(s) == s;
  }

  lemma DigitIsNoSign(c: char, base: nat)
    requires IsDigit(c, base)
    ensures !IsSpace(c) && c != '-' && c != '+'
  {
  }

  lemma NoHexPrefix(digits: string, tail: string, base: nat)
    requires digits != "" && AllDigits(digits, base)
    requires tail == "" || (tail[0] != 'x' && tail[0] != 'X')
    ensures var s := digits + tail; |s| >= 2 ==> s[1] != 'x' && s[1] != 'X'
  {
    if |digits| >= 2 {
      assert IsDigit(digits[1], base);
    }
  }

  /** `std::to_string` of an unsigned number. */
  function ToDecimal(n: nat): (r: string)
    ensures r != "" && AllDigits(r, 10)
  {
    if n < 10 then [DecimalDigit(n)] else ToDecimal(n / 10) + [DecimalDigit(n % 10)]
  }

  function DecimalDigit(d: nat): (c: char)
    requires d < 10
    ensures DigitValue(c) == Some(d)
  {
    '0' + d as char
  }

  lemma {:induction false} ValueOfDecimal(n: nat)
    ensures Value(ToDecimal(n), 10) == n
  {
    if n >= 10 {
      ValueOfDecimal(n / 10);
      assert ToDecimal(n)[..|ToDecimal(n)| - 1] == ToDecimal(n / 10);
    }
  }

  /** Reading back a printed number gives the number. */
  lemma DecimalRoundTrip(n: nat)
    requires n < ULONG_LIMIT
    ensures Stoul(ToDecimal(n), 10) == Some(n)
  {
    ValueOfDecimal(n);
    StoulOfDigits(ToDecimal(n), "", 10);
    assert ToDecimal(n) + "" == ToDecimal(n);
  }

  lemma DigitsHaveNo(s: string, base: nat, c: char)
    requires AllDigits(s, base) && DigitValue(c) == None
    ensures c !in s
  {
  }

  // ---------- letters ----------

  const UPPER_LETTERS := "ABCDEFGHIJKLMNOPQRSTUVWXYZ"
  const LOWER_LETTERS := "abcdefghijklmnopqrstuvwxyz"

  lemma UpperAt(i: nat)
    requires i < 26
    ensures UPPER_LETTERS[i] == 'A' + i as char
  {
  }

  lemma LowerAt(i: nat)
    requires i < 26
    ensures LOWER_LETTERS[i] == 'a' + i as char
  {
  }

  lemma UpperIff(c: char)
    ensures 'A' <= c <= 'Z' <==> c in UPPER_LETTERS
  {
    if 'A' <= c <= 'Z' {
      UpperAt((c - 'A') as nat);
    }
    if c in UPPER_LETTERS {
      var i :| 0 <= i < |UPPER_LETTERS| && UPPER_LETTERS[i] == c;
      UpperAt(i);
    }
  }

  lemma LowerIff(c: char)
    ensures 'a' <= c <= 'z' <==> c in LOWER_LETTERS
  {
    if 'a' <= c <= 'z' {
      LowerAt((c - 'a') as nat);
    }
    if c in LOWER_LETTERS {
      var i :| 0 <= i < |LOWER_LETTERS| && LOWER_LETTERS[i] == c;
      LowerAt(i);
    }
  }

  lemma DecimalIff(c: char)
    ensures '0' <= c <= '9' <==> c in "0123456789"
  {
    if '0' <= c <= '9' {
      DecimalDigitAt((c - '0') as nat);
    }
    if c in "0123456789" {
      var i :| 0 <= i < 10 && "0123456789"[i] == c;
      DecimalDigitAt(i);
    }
  }

  // ---------- numerals, without the digit table above ----------

  const LOWER_DIGITS := "0123456789abcdef"
  const UPPER_DIGITS := "0123456789ABCDEF"

  function Positional(ds: seq<nat>, base: nat): nat {
    if ds == [] then 0 else Positional(ds[..|ds| - 1], base) * base + ds[|ds| - 1]
  }

  /** Each digit is spelled in either case. */
  ghost predicate Spells(text: string, ds: seq<nat>, base: nat)
    requires base <= 16
  {
    |text| == |ds| && forall i :: 0 <= i < |ds| ==> ds[i] < base && (text[i] == LOWER_DIGITS[ds[i]] || text[i] == UPPER_DIGITS[ds[i]])
  }

  /** A numeral for `n`, leading zeros allowed. */
  ghost predicate IsNumeral(text: string, n: nat, base: nat)
    requires base <= 16
  {
    text != "" && exists ds: seq<nat> :: Spells(text, ds, base) && Positional(ds, base) == n
  }

  /** The digit table is that of the two alphabets. */
  lemma DigitValueIff(c: char, v: nat)
    ensures DigitValue(c) == Some(v) <==> v < 16 && (c == LOWER_DIGITS[v] || c == UPPER_DIGITS[v])
  {
    if v < 16 {
      DigitAt(v);
    }
  }

  lemma DigitAt(v: nat)
    requires v < 16
    ensures LOWER_DIGITS[v] == (if v < 10 then '0' + v as char else 'a' + (v - 10) as char)
    ensures UPPER_DIGITS[v] == (if v < 10 then '0' + v as char else 'A' + (v - 10) as char)
  {
  }

  lemma {:induction false} SpelledValue(text: string, ds: seq<nat>, base: nat)
    requires base <= 16 && Spells(text, ds, base)
    ensures AllDigits(text, base) && Value(text, base) == Positional(ds, base)
  {
    hide DigitValue;
    if text != "" {
      var last := |text| - 1;
      SpelledValue(text[..last], ds[..last], base);
      DigitValueIff(text[last], ds[last]);
    }
  }

  lemma {:induction false} DigitsAreSpelled(text: string, base: nat) returns (ds: seq<nat>)
    requires base <= 16 && AllDigits(text, base)
    ensures Spells(text, ds, base)
  {
    hide DigitValue;
    if text == "" {
      ds := [];
    } else {
      var last := |text| - 1;
      ds := DigitsAreSpelled(text[..last], base);
      assert IsDigit(text[last], base);
      var v := DigitValue(text[last]).value;
      DigitValueIff(text[last], v);
      ds := ds + [v];
    }
  }

  /** What is read digit by digit is what is spelled. */
  lemma NumeralValue(text: string, n: nat, base: nat)
    requires base <= 16
    ensures IsNumeral(text, n, base) <==> text != "" && AllDigits(text, base) && Value(text, base) == n
  {
    hide Value, Positional, Spells, DigitValue;
    if IsNumeral(text, n, base) {
      var ds: seq<nat> :| Spells(text, ds, base) && Positional(ds, base) == n;
      SpelledValue(text, ds, base);
    }
    if text != "" && AllDigits(text, base) && Value(text, base) == n {
      var ds := DigitsAreSpelled(text, base);
      SpelledValue(text, ds, base);
    }
  }

  /** `n` printed with an alphabet, its size being the base. */
  function Printed(n: nat, alphabet: string): (r: string)
    requires |alphabet| >= 2
    ensures r != ""
  {
    if n < |alphabet| then [alphabet[n]] else Printed(n / |alphabet|, alphabet) + [alphabet[n % |alphabet|]]
  }

  lemma {:induction false} PrintedSpells(n: nat, alphabet: string, base: nat) returns (ds: seq<nat>)
    requires 2 <= base <= 16 && (alphabet == LOWER_DIGITS[..base] || alphabet == UPPER_DIGITS[..base])
    ensures Spells(Printed(n, alphabet), ds, base) && Positional(ds, base) == n
  {
    if n < base {
      ds := [n];
      assert ds[..0] == [] && [alphabet[n]][0] == alphabet[n];
    } else {
      hide Spells, Positional, Printed;
      var q, r := n / base, n % base;
      QuotientAndRest(n, base);
      var before := PrintedSpells(q, alphabet, base);
      PrintedStep(n, alphabet, q, r);
      ds := before + [r];
      SpelledBehind(Printed(q, alphabet), before, alphabet[r], r, base);
    }
  }

  lemma PrintedStep(n: nat, alphabet: string, q: nat, r: nat)
    requires 2 <= |alphabet| <= n && q == n / |alphabet| && r == n % |alphabet|
    ensures r < |alphabet| && Printed(n, alphabet) == Printed(q, alphabet) + [alphabet[r]]
  {
  }

  lemma SpelledBehind(text: string, ds: seq<nat>, c: char, d: nat, base: nat)
    requires base <= 16 && Spells(text, ds, base) && d < base && (c == LOWER_DIGITS[d] || c == UPPER_DIGITS[d])
    ensures Spells(text + [c], ds + [d], base) && Positional(ds + [d], base) == Positional(ds, base) * base + d
  {
    assert (ds + [d])[..|ds|] == ds;
  }

  lemma QuotientAndRest(n: nat, base: nat)
    requires 2 <= base
    ensures n / base * base + n % base == n && n % base < base && (n > 0 ==> n / base < n)
  {
  }

  /** `std::to_string` prints with the decimal digits. */
  lemma {:induction false} DecimalIsPrinted(n: nat)
    ensures ToDecimal(n) == Printed(n, "0123456789") && IsNumeral(ToDecimal(n), n, 10)
  {
    DecimalDigitAt(n % 10);
    if n >= 10 {
      DecimalIsPrinted(n / 10);
    }
    assert LOWER_DIGITS[..10] == "0123456789";
    var ds := PrintedSpells(n, "0123456789", 10);
  }

  lemma DecimalDigitAt(d: nat)
    requires d < 10
    ensures DecimalDigit(d) == "0123456789"[d] == '0' + d as char
  {
  }

  /** A number as `std::stoul` finds it: white space, a sign, in base sixteen a prefix, digits. */
  ghost predicate NumberIn(s: string, base: nat, spaces: string, sign: string, prefix: string, digits: string, tail: string)
    requires base <= 16
  {
    && s == spaces + (sign + (prefix + (digits + tail)))
    && (forall c :: c in spaces ==> c in " \t\n\U{000B}\U{000C}\r")
    && (sign == "" || sign == "+" || sign == "-")
    && (prefix == "" || (base == 16 && (prefix == "0x" || prefix == "0X")))
    && (tail != "" ==> !IsNumeralChar(tail[0], base))
    && (base == 16 && prefix == "" && digits == "0" && |tail| >= 2 && tail[0] in "xX" ==> !IsNumeralChar(tail[1], 16))
  }

  ghost predicate IsNumeralChar(c: char, base: nat)
    requires base <= 16
  {
    c in LOWER_DIGITS[..base] || c in UPPER_DIGITS[..base]
  }

  lemma NumeralCharIff(c: char, base: nat)
    requires base <= 16
    ensures IsNumeralChar(c, base) <==> IsDigit(c, base)
  {
    hide DigitValue;
    if IsDigit(c, base) {
      var v := DigitValue(c).value;
      DigitValueIff(c, v);
      assert LOWER_DIGITS[..base][v] == LOWER_DIGITS[v] && UPPER_DIGITS[..base][v] == UPPER_DIGITS[v];
    }
    if c in LOWER_DIGITS[..base] {
      var v :| 0 <= v < base && LOWER_DIGITS[..base][v] == c;
      DigitValueIff(c, v);
    }
    if c in UPPER_DIGITS[..base] {
      var v :| 0 <= v < base && UPPER_DIGITS[..base][v] == c;
      DigitValueIff(c, v);
    }
  }

  lemma {:induction false} SpacesDropped(spaces: string, rest: string)
    requires forall c :: c in spaces ==> c in " \t\n\U{000B}\U{000C}\r"
    requires rest == "" || !IsSpace(rest[0])
    ensures DropSpaces(spaces + rest) == rest
  {
    if spaces == "" {
      assert spaces + rest == rest;
    } else {
      assert spaces[0] in spaces && IsSpace(spaces[0]);
      SpacesDropped(spaces[1..], rest);
      assert (spaces + rest)[1..] == spaces[1..] + rest;
    }
  }

  /** `std::stoul` reads every such number: it throws if the number does not fit 64 bits, and a minus sign
      stands for the difference to 2^64. */
  lemma StoulReads(s: string, base: nat, spaces: string, sign: string, prefix: string, digits: string, tail: string, n: nat)
    requires base == 10 || base == 16
    requires NumberIn(s, base, spaces, sign, prefix, digits, tail) && IsNumeral(digits, n, base)
    ensures Stoul(s, base) ==
            if n >= 0x1_0000_0000_0000_0000 then None
            else Some(if sign == "-" then (0x1_0000_0000_0000_0000 - n) % 0x1_0000_0000_0000_0000 else n)
  {
    NumeralValue(digits, n, base);
    hide IsNumeral, Value, LeadingDigits;
    ScanSees(s, base, spaces, sign, prefix, digits, tail);
  }

  /** A number printed in either case, or in decimal, is read as that number. */
  lemma PrintedIsRead(n: nat, alphabet: string, base: nat)
    requires n < 0x1_0000_0000_0000_0000
    requires (base == 16 && alphabet in {"0123456789abcdef", "0123456789ABCDEF"}) || (base == 10 && alphabet == "0123456789")
    ensures IsNumeral(Printed(n, alphabet), n, base) && Stoul(Printed(n, alphabet), base) == Some(n)
  {
    hide Stoul, Printed, Spells, Positional;
    assert LOWER_DIGITS[..10] == "0123456789" && LOWER_DIGITS[..16] == LOWER_DIGITS && UPPER_DIGITS[..16] == UPPER_DIGITS;
    var ds := PrintedSpells(n, alphabet, base);
    var text := Printed(n, alphabet);
    assert "" + ("" + ("" + (text + ""))) == text;
    StoulReads(text, base, "", "", "", text, "", n);
  }

  lemma ScanSees(s: string, base: nat, spaces: string, sign: string, prefix: string, digits: string, tail: string)
    requires base == 10 || base == 16
    requires NumberIn(s, base, spaces, sign, prefix, digits, tail) && digits != "" && AllDigits(digits, base)
    ensures Scan(s, base) == Numeral(sign == "-", digits)
  {
    hide IsDigit, LeadingDigits, DropSpaces, IsSpace, IsNumeralChar;
    var u := prefix + (digits + tail);
    if tail != "" {
      NumeralCharIff(tail[0], base);
    }
    if |tail| >= 2 {
      NumeralCharIff(tail[1], 16);
    }
    assert IsDigit(digits[0], base);
    DigitIsNoSign(digits[0], base);
    ZeroIsNoSign();
    assert u[0] == if prefix == "" then digits[0] else '0';
    SignSeen(sign, u);
    SpacesDropped(spaces, sign + u);
    PrefixSeen(prefix, digits, tail, base);
    LeadingDigitsOf(digits, tail, base);
  }

  lemma SignSeen(sign: string, u: string)
    requires (sign == "" || sign == "+" || sign == "-") && u != "" && u[0] != '-' && u[0] != '+' && !IsSpace(u[0])
    ensures var t := sign + u;
            && t != "" && !IsSpace(t[0]) && ((t[0] == '-') <==> sign == "-")
            && (if t[0] == '-' || t[0] == '+' then t[1..] else t) == u
  {
    ZeroIsNoSign();
    hide IsSpace;
    assert (sign + u)[0] == if sign == "" then u[0] else sign[0];
    assert sign == "" ==> sign + u == u;
    assert sign != "" ==> (sign + u)[1..] == u;
  }

  lemma PrefixSeen(prefix: string, digits: string, tail: string, base: nat)
    requires prefix == "" || (base == 16 && (prefix == "0x" || prefix == "0X"))
    requires digits != "" && AllDigits(digits, base)
    requires base == 16 && prefix == "" && digits == "0" && |tail| >= 2 && tail[0] in "xX" ==> !IsDigit(tail[1], 16)
    ensures var u := prefix + (digits + tail);
            (if base == 16 && |u| >= 3 && u[0] == '0' && (u[1] == 'x' || u[1] == 'X') && IsDigit(u[2], 16) then u[2..] else u)
            == digits + tail
  {
    var u, v := prefix + (digits + tail), digits + tail;
    if prefix == "" {
      assert u == v;
      NoPrefixSeen(digits, tail, base);
    } else {
      hide IsDigit;
      assert IsDigit(digits[0], base);
      assert u[0] == prefix[0] && u[1] == prefix[1] && u[2..] == v && u[2] == digits[0];
    }
  }

  lemma ZeroIsNoSign()
    ensures !IsSpace('0') && '0' != '-' && '0' != '+' && !IsSpace('-') && !IsSpace('+')
  {
  }

  lemma NoPrefixSeen(digits: string, tail: string, base: nat)
    requires digits != "" && AllDigits(digits, base)
    requires base == 16 && digits == "0" && |tail| >= 2 && tail[0] in "xX" ==> !IsDigit(tail[1], 16)
    ensures var v := digits + tail;
            !(base == 16 && |v| >= 3 && v[0] == '0' && (v[1] == 'x' || v[1] == 'X') && IsDigit(v[2], 16))
  {
    if |digits| >= 2 {
      assert IsDigit(digits[1], base);
    } else {
      assert digits == [digits[0]];
    }
  }

  /** Nothing else is a number to it. */
  lemma StoulNeedsNumber(s: string, base: nat) returns (spaces: string, sign: string, prefix: string, digits: string, tail: string)
    requires (base == 10 || base == 16) && Stoul(s, base).Some?
    ensures NumberIn(s, base, spaces, sign, prefix, digits, tail) && digits != "" && AllDigits(digits, base)
  {
    hide Scan, LeadingDigits, IsDigit, Value, IsNumeralChar;
    spaces := LeadingSpaces(s);
    var v: string;
    sign, prefix, v := ScanParts(s, base);
    digits := LeadingDigits(v, base);
    tail := v[|digits|..];
    assert v == digits + tail;
    if tail != "" {
      NumeralCharIff(tail[0], base);
    }
    if base == 16 && prefix == "" && digits == "0" && |tail| >= 2 && tail[0] in "xX" {
      ZeroThenX(v, digits, tail);
      NumeralCharIff(tail[1], 16);
    }
  }

  lemma ScanParts(s: string, base: nat) returns (sign: string, prefix: string, v: string)
    requires base == 10 || base == 16
    ensures DropSpaces(s) == sign + (prefix + v) && Scan(s, base).digits == LeadingDigits(v, base)
    ensures sign == "" || sign == "+" || sign == "-"
    ensures prefix == "" || (base == 16 && (prefix == "0x" || prefix == "0X"))
    ensures base == 16 && prefix == "" && |v| >= 3 && v[0] == '0' && (v[1] == 'x' || v[1] == 'X') ==> !IsDigit(v[2], 16)
  {
    hide DropSpaces, LeadingDigits, IsDigit;
    var t := DropSpaces(s);
    var signed := t != "" && (t[0] == '-' || t[0] == '+');
    sign := if signed then [t[0]] else "";
    var u := if signed then t[1..] else t;
    assert t == sign + u;
    var prefixed := base == 16 && |u| >= 3 && u[0] == '0' && (u[1] == 'x' || u[1] == 'X') && IsDigit(u[2], 16);
    prefix := if prefixed then u[..2] else "";
    v := if prefixed then u[2..] else u;
    assert u == prefix + v;
    assert prefixed ==> prefix == [u[0], u[1]];
  }

  lemma ZeroThenX(v: string, digits: string, tail: string)
    requires v == digits + tail && digits == "0" && |tail| >= 2 && tail[0] in "xX"
    ensures |v| >= 3 && v[0] == '0' && (v[1] == 'x' || v[1] == 'X') && v[2] == tail[1]
  {
  }

  lemma {:induction false} LeadingSpaces(s: string) returns (spaces: string)
    ensures s == spaces + DropSpaces(s) && forall c :: c in spaces ==> c in " \t\n\U{000B}\U{000C}\r"
  {
    if s != "" && IsSpace(s[0]) {
      spaces := LeadingSpaces(s[1..]);
      SpaceIsOne(s[0]);
      spaces := [s[0]] + spaces;
    } else {
      spaces := "";
    }
  }

  lemma SpaceIsOne(c: char)
    requires IsSpace(c)
    ensures c in " \t\n\U{000B}\U{000C}\r"
  {
    var all := " \t\n\U{000B}\U{000C}\r";
    assert all[0] == ' ' && all[1] == '\t' && all[2] == '\n' && all[3] == '\U{000B}' && all[4] == '\U{000C}' && all[5] == '\r';
    assert c == all[0] || c == all[1] || c == all[2] || c == all[3] || c == all[4] || c == all[5];
  }
}
