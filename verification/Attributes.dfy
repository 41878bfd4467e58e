/** `SemicolonSeparatedAttributes`: the attributes of Set-Cookie and Content-Disposition values. */
module Attributes {
  import opened Wrappers
  import Percent
  import opened QueryString

  // ---------- the attributes of a value, in the order they are found ----------

  /** Between attributes: spaces and semicolons are skipped. */
  function Attrs(s: string): seq<Field>
    decreases |s|, 1
  {
    if s == "" then []
    else if s[0] == ' ' || s[0] == ';' then Attrs(s[1..])
    else InName(s, 1)
  }

  /** In a name that starts at 0, `k` characters of which have been passed. */
  function InName(s: string, k: nat): seq<Field>
    requires 0 < k <= |s|
    decreases |s| - k, 2
  {
    if k == |s| then [Field(s, "")]
    else if s[k] == ';' then [Field(s[..k], "")] + Attrs(s[k + 1..])
    else if s[k] == '=' then AtValue(s[..k], s[k + 1..])
    else InName(s, k + 1)
  }

  /** Behind the `=`: a quote opens a quoted value if anything follows it. */
  function AtValue(name: string, t: string): seq<Field>
    decreases |t|, 1
  {
    if t == "" then []
    else InValue(name, t, if t[0] == '"' && |t| > 1 then 1 else 0, 1)
  }

  /** In a value that starts at `v`; it ends at a quote or semicolon at `k` or later. */
  function InValue(name: string, t: string, v: nat, k: nat): seq<Field>
    requires v <= k <= |t| && 0 < k
    decreases |t| - k, 2
  {
    if k == |t| then [Field(name, Percent.Decode(t[v..]))]
    else if t[k] == '"' || t[k] == ';' then [Field(name, Percent.Decode(t[v..k]))] + Attrs(t[k + 1..])
    else InValue(name, t, v, k + 1)
  }

  // ---------- the state machine over three positions ----------

  /** What is still to be found when the scan of `s` is at `c`. */
  ghost function Pending(s: string, c: nat, nameStart: Option<nat>, nameEnd: Option<nat>, valueStart: Option<nat>): seq<Field>
    requires PositionsOk(s, c, nameStart, nameEnd, valueStart)
  {
    if nameStart == None then Attrs(s[c..])
    else if nameEnd == None then InName(s[nameStart.value..], c - nameStart.value)
    else
      var name, t := s[nameStart.value..nameEnd.value], s[nameEnd.value + 1..];
      if valueStart == None then AtValue(name, t)
      else InValue(name, t, valueStart.value - nameEnd.value - 1, c - nameEnd.value - 1)
  }

  ghost predicate PositionsOk(s: string, c: nat, nameStart: Option<nat>, nameEnd: Option<nat>, valueStart: Option<nat>) {
    && c <= |s|
    && (nameStart == None ==> nameEnd == None)
    && (nameEnd == None ==> valueStart == None)
    && (nameStart.Some? ==> nameStart.value < c)
    && (nameEnd.Some? ==> nameStart.value < nameEnd.value < c)
    && (nameEnd.Some? && valueStart == None ==> c == nameEnd.value + 1)
    && (valueStart.Some? ==> nameEnd.value < valueStart.value <= c && nameEnd.value + 1 < c)
  }

  /** `std::string::substr`: the count is cut to what is there. */
  function Substr(s: string, pos: nat, count: nat): string
    requires pos <= |s|
  {
    s[pos..Min(|s|, pos + count)]
  }

  lemma OutsideStep(s: string, c: nat)
    requires c < |s|
    ensures Pending(s, c, None, None, None)
         == Pending(s, c + 1, if s[c] == ' ' || s[c] == ';' then None else Some(c), None, None)
  {
    assert s[c..][1..] == s[c + 1..];
  }

  lemma NameStep(s: string, c: nat, start: nat)
    requires start < c < |s|
    ensures Pending(s, c, Some(start), None, None) ==
            if s[c] == ';' then [Field(s[start..c], "")] + Pending(s, c + 1, None, None, None)
            else Pending(s, c + 1, Some(start), if s[c] == '=' then Some(c) else None, None)
  {
    assert s[start..][c - start] == s[c];
    assert s[start..][..c - start] == s[start..c] && s[start..][c - start + 1..] == s[c + 1..];
  }

  lemma ValueStartStep(s: string, c: nat, start: nat)
    requires start + 1 < c < |s|
    ensures Pending(s, c, Some(start), Some(c - 1), None)
         == Pending(s, c + 1, Some(start), Some(c - 1), Some(if s[c] == '"' && c + 1 < |s| then c + 1 else c))
  {
    assert s[c..][0] == s[c];
  }

  lemma ValueStep(s: string, c: nat, start: nat, end: nat, value: nat)
    requires start < end < value <= c < |s| && end + 1 < c
    ensures Pending(s, c, Some(start), Some(end), Some(value)) ==
            if s[c] == '"' || s[c] == ';' then
              [Field(s[start..end], Percent.Decode(s[value..c]))] + Pending(s, c + 1, None, None, None)
            else Pending(s, c + 1, Some(start), Some(end), Some(value))
  {
    hide Attrs, InName, AtValue, Percent.Decode;
    SliceOfTail(s, end + 1, value, c);
  }

  lemma SliceOfTail(s: string, a: nat, i: nat, j: nat)
    requires a <= i <= j < |s|
    ensures var t := s[a..];
            t[i - a..j - a] == s[i..j] && t[j - a] == s[j] && t[j - a + 1..] == s[j + 1..]
  {
  }

  lemma AtEnd(s: string, nameStart: Option<nat>, nameEnd: Option<nat>, valueStart: Option<nat>)
    requires PositionsOk(s, |s|, nameStart, nameEnd, valueStart)
    ensures Pending(s, |s|, nameStart, nameEnd, valueStart) ==
            if nameStart.Some? && nameEnd == None then [Field(s[nameStart.value..], "")]
            else if valueStart.Some? then [Field(s[nameStart.value..nameEnd.value], Percent.Decode(s[valueStart.value..]))]
            else []
  {
    if valueStart.Some? {
      assert s[nameEnd.value + 1..][valueStart.value - nameEnd.value - 1..] == s[valueStart.value..];
    }
  }

  /** One iteration: the new positions, and the field emplaced if one is complete. */
  method Step(value: string, c: nat, nameStart0: Option<nat>, nameEnd0: Option<nat>, valueStart0: Option<nat>)
      returns (found: seq<Field>, nameStart: Option<nat>, nameEnd: Option<nat>, valueStart: Option<nat>)
    requires c < |value| && PositionsOk(value, c, nameStart0, nameEnd0, valueStart0)
    ensures PositionsOk(value, c + 1, nameStart, nameEnd, valueStart)
    ensures Pending(value, c, nameStart0, nameEnd0, valueStart0)
         == found + Pending(value, c + 1, nameStart, nameEnd, valueStart)
  {
    hide Pending, Attrs, InName, AtValue, InValue, Percent.Decode;
    found, nameStart, nameEnd, valueStart := [], nameStart0, nameEnd0, valueStart0;
    if nameStart == None {
      OutsideStep(value, c);
      if value[c] != ' ' && value[c] != ';' {
        nameStart := Some(c);
      }
    } else if nameEnd == None {
      NameStep(value, c, nameStart.value);
      if value[c] == ';' {
        found := [Field(value[nameStart.value..c], "")];
        nameStart := None;
      } else if value[c] == '=' {
        nameEnd := Some(c);
      }
    } else if valueStart == None {
      ValueStartStep(value, c, nameStart.value);
      if value[c] == '"' && c + 1 < |value| {
        valueStart := Some(c + 1);
      } else {
        valueStart := Some(c);
      }
    } else {
      ValueStep(value, c, nameStart.value, nameEnd.value, valueStart.value);
      if value[c] == '"' || value[c] == ';' {
        var decoded := Percent.DecodeValue(value[valueStart.value..c]);
        found := [Field(value[nameStart.value..nameEnd.value], decoded)];
        nameStart := None;
        nameEnd := None;
        valueStart := None;
      }
    }
  }

  /** What is emplaced behind the loop. The count passed to `substr` for a value whose last character
      is a quote is too large to cut anything off. */
  method Finish(value: string, nameStart: Option<nat>, nameEnd: Option<nat>, valueStart: Option<nat>)
      returns (found: seq<Field>)
    requires PositionsOk(value, |value|, nameStart, nameEnd, valueStart)
    ensures found == Pending(value, |value|, nameStart, nameEnd, valueStart)
  {
    hide Pending, Percent.Decode;
    AtEnd(value, nameStart, nameEnd, valueStart);
    found := [];
    if nameStart.Some? {
      if nameEnd == None {
        found := [Field(value[nameStart.value..], "")];
      } else if valueStart.Some? {
        var count := if value[|value| - 1] == '"' then |value| - 1 else |value|;
        assert Substr(value, valueStart.value, count) == value[valueStart.value..];
        var decoded := Percent.DecodeValue(Substr(value, valueStart.value, count));
        found := [Field(value[nameStart.value..nameEnd.value], decoded)];
      }
    }
  }

  method Parse(value: string) returns (result: seq<Field>)
    ensures result == Attrs(value)
  {
    result := [];
    var nameStart: Option<nat> := None;
    var nameEnd: Option<nat> := None;
    var valueStart: Option<nat> := None;
    assert Pending(value, 0, None, None, None) == Attrs(value) by {
      assert value[0..] == value;
    }
    hide Pending;
    for c := 0 to |value|
      invariant PositionsOk(value, c, nameStart, nameEnd, valueStart)
      invariant result + Pending(value, c, nameStart, nameEnd, valueStart) == Attrs(value)
    {
      var found;
      found, nameStart, nameEnd, valueStart := Step(value, c, nameStart, nameEnd, valueStart);
      result := result + found;
    }
    var found := Finish(value, nameStart, nameEnd, valueStart);
    result := result + found;
  }

  // ---------- round trip ----------

  /** An attribute as it is printed: a bare name, or a name with a quoted percent-encoded value. */
  datatype Attribute = Bare(name: string) | Quoted(name: string, value: string)

  function ToField(a: Attribute): Field {
    Field(a.name, if a.Bare? then "" else a.value)
  }

  function ToFields(attributes: seq<Attribute>): seq<Field> {
    if attributes == [] then [] else [ToField(attributes[0])] + ToFields(attributes[1..])
  }

  ghost predicate AllBytes(attributes: seq<Attribute>) {
    forall a :: a in attributes && a.Quoted? ==> IsBytes(a.value)
  }

  function Print(a: Attribute): string
    requires a.Quoted? ==> IsBytes(a.value)
  {
    if a.Bare? then a.name else a.name + "=" + ("\"" + Percent.Encode(a.value) + "\"")
  }

  function PrintAll(attributes: seq<Attribute>): string
    requires AllBytes(attributes)
  {
    if attributes == [] then ""
    else if |attributes| == 1 then Print(attributes[0])
    else Print(attributes[0]) + ("; " + PrintAll(attributes[1..]))
  }

  /** Names that survive: they do not start with a space or semicolon, and have no semicolon or
      equals sign behind their first character. */
  predicate NameOk(name: string) {
    name != "" && name[0] != ' ' && name[0] != ';' && ';' !in name[1..] && '=' !in name[1..]
  }

  lemma {:induction false} NamePasses(s: string, k: nat, n: nat)
    requires 0 < k <= n <= |s|
    requires forall i :: k <= i < n ==> s[i] != ';' && s[i] != '='
    ensures InName(s, k) == InName(s, n)
    decreases n - k
  {
    if k < n {
      NamePasses(s, k + 1, n);
    }
  }

  lemma {:induction false} ValuePasses(name: string, t: string, v: nat, k: nat, n: nat)
    requires v <= k <= n <= |t| && 0 < k
    requires forall i :: k <= i < n ==> t[i] != ';' && t[i] != '"'
    ensures InValue(name, t, v, k) == InValue(name, t, v, n)
    decreases n - k
  {
    if k < n {
      ValuePasses(name, t, v, k + 1, n);
    }
  }

  /** The name at the front of `s` is passed as a whole. */
  lemma NameAtFront(name: string, rest: string)
    requires NameOk(name)
    ensures Attrs(name + rest) == InName(name + rest, |name|)
  {
    var s := name + rest;
    assert s[0] == name[0];
    forall i | 1 <= i < |name| ensures s[i] != ';' && s[i] != '=' {
      assert s[i] == name[1..][i - 1] && name[1..][i - 1] in name[1..];
    }
    NamePasses(s, 1, |name|);
  }

  lemma BareAtFront(name: string, rest: string)
    requires NameOk(name) && (rest == "" || rest[0] == ';')
    ensures Attrs(name + rest) == [Field(name, "")] + if rest == "" then [] else Attrs(rest[1..])
  {
    var s := name + rest;
    NameAtFront(name, rest);
    if rest == "" {
      assert s == name;
    } else {
      assert s[|name|] == ';' && s[..|name|] == name && s[|name| + 1..] == rest[1..];
    }
  }

  lemma QuotedAtFront(name: string, value: string, rest: string)
    requires NameOk(name) && IsBytes(value)
    ensures Attrs(name + "=" + ("\"" + Percent.Encode(value) + "\"") + rest) == [Field(name, value)] + Attrs(rest)
  {
    hide Attrs, Percent.Decode, Percent.Encode;
    var encoded := Percent.Encode(value);
    var t := "\"" + encoded + "\"" + rest;
    var s := name + "=" + ("\"" + encoded + "\"") + rest;
    assert s == name + ("=" + t);
    NameAtFront(name, "=" + t);
    assert InName(s, |name|) == AtValue(name, t) by {
      assert s[|name|] == '=' && s[..|name|] == name && s[|name| + 1..] == t;
    }
    assert AtValue(name, t) == InValue(name, t, 1, 1);
    Percent.EncodeEmitsTriplets(value);
    Percent.EncodedHasNo(encoded, ';');
    Percent.EncodedHasNo(encoded, '"');
    forall i | 1 <= i < |encoded| + 1 ensures t[i] != ';' && t[i] != '"' {
      assert t[i] == encoded[i - 1] && encoded[i - 1] in encoded;
    }
    ValuePasses(name, t, 1, 1, |encoded| + 1);
    assert t[|encoded| + 1] == '"' && t[1..|encoded| + 1] == encoded && t[|encoded| + 1 + 1..] == rest;
    Percent.DecodeEncode(value);
  }

  lemma AfterSeparator(rest: string)
    ensures Attrs("; " + rest) == Attrs(rest) && Attrs(" " + rest) == Attrs(rest)
  {
    assert ("; " + rest)[1..] == " " + rest;
    assert (" " + rest)[1..] == rest;
  }

  lemma {:induction false} GoodNamesSurvive(attributes: seq<Attribute>)
    requires AllBytes(attributes)
    requires forall a :: a in attributes ==> NameOk(a.name)
    ensures Attrs(PrintAll(attributes)) == ToFields(attributes)
  {
    hide NameOk;
    if attributes != [] {
      var a := attributes[0];
      var more := |attributes| > 1;
      var rest := if more then "; " + PrintAll(attributes[1..]) else "";
      assert PrintAll(attributes) == Print(a) + rest;
      GoodNamesSurvive(attributes[1..]);
      if more {
        AfterSeparator(PrintAll(attributes[1..]));
        assert rest[1..] == " " + PrintAll(attributes[1..]);
      }
      if a.Bare? {
        BareAtFront(a.name, rest);
      } else {
        QuotedAtFront(a.name, a.value, rest);
      }
    }
  }

  /** `parse` never yields any other name. */
  lemma {:induction false} ParsedNames(s: string)
    ensures forall f :: f in Attrs(s) ==> NameOk(f.name)
    decreases |s|, 1
  {
    hide NameOk;
    if s != "" {
      if s[0] == ' ' || s[0] == ';' {
        ParsedNames(s[1..]);
      } else {
        FirstCharacter(s);
        ParsedInName(s, 1);
      }
    }
  }

  lemma FirstCharacter(s: string)
    requires s != "" && s[0] != ' ' && s[0] != ';'
    ensures NameOk(s[..1])
  {
    assert s[..1][1..] == "";
  }

  lemma NameGrows(s: string, k: nat)
    requires 0 < k < |s| && NameOk(s[..k]) && s[k] != ';' && s[k] != '='
    ensures NameOk(s[..k + 1])
  {
    assert s[..k + 1][1..] == s[..k][1..] + [s[k]];
  }

  lemma {:induction false} ParsedInName(s: string, k: nat)
    requires 0 < k <= |s| && NameOk(s[..k])
    ensures forall f :: f in InName(s, k) ==> NameOk(f.name)
    decreases |s| - k, 2
  {
    hide NameOk;
    if k == |s| {
      assert s[..k] == s;
    } else if s[k] == ';' {
      ParsedNames(s[k + 1..]);
    } else if s[k] == '=' {
      if s[k + 1..] != "" {
        var t := s[k + 1..];
        ParsedInValue(s[..k], t, if t[0] == '"' && |t| > 1 then 1 else 0, 1);
      }
    } else {
      NameGrows(s, k);
      ParsedInName(s, k + 1);
    }
  }

  lemma {:induction false} ParsedInValue(name: string, t: string, v: nat, k: nat)
    requires v <= k <= |t| && 0 < k && NameOk(name)
    ensures forall f :: f in InValue(name, t, v, k) ==> NameOk(f.name)
    decreases |t| - k, 2
  {
    hide NameOk;
    if k < |t| {
      if t[k] == '"' || t[k] == ';' {
        ParsedNames(t[k + 1..]);
      } else {
        ParsedInValue(name, t, v, k + 1);
      }
    }
  }

  lemma {:induction false} FieldOfEach(attributes: seq<Attribute>, a: Attribute)
    requires a in attributes
    ensures ToField(a) in ToFields(attributes)
  {
    if a != attributes[0] {
      FieldOfEach(attributes[1..], a);
    }
  }

  /** Round trip: any list of attributes, each bare or with a quoted encoded value, is recovered
      exactly if all its names are of the form above. */
  lemma RoundTrip(attributes: seq<Attribute>)
    requires AllBytes(attributes)
    ensures Attrs(PrintAll(attributes)) == ToFields(attributes) <==> forall a :: a in attributes ==> NameOk(a.name)
  {
    hide NameOk;
    ParsedNames(PrintAll(attributes));
    if forall a :: a in attributes ==> NameOk(a.name) {
      GoodNamesSurvive(attributes);
    } else {
      var a :| a in attributes && !NameOk(a.name);
      FieldOfEach(attributes, a);
    }
  }

  // ---------- other forms of values ----------

  /** A value without an opening quote ends at the next quote or semicolon behind its first character,
      whatever that is; with one, behind the quote. Either is percent-decoded. */
  lemma ValueAtFront(name: string, value: string, end: string)
    requires NameOk(name) && value != "" && (end == "" || end[0] == ';' || end[0] == '"')
    requires forall i :: 1 <= i < |value| ==> value[i] != ';' && value[i] != '"'
    ensures value[0] != '"' ==>
              Attrs(name + "=" + (value + end)) == [Field(name, Percent.Decode(value))] + if end == "" then [] else Attrs(end[1..])
    ensures value[0] == '"' && |value + end| > 1 ==>
              Attrs(name + "=" + (value + end)) == [Field(name, Percent.Decode(value[1..]))] + if end == "" then [] else Attrs(end[1..])
  {
    hide Attrs, Percent.Decode;
    var t := value + end;
    NameThenValue(name, t);
    var v := if t[0] == '"' && |t| > 1 then 1 else 0;
    ValuePasses(name, t, v, 1, |value|);
    if end == "" {
      assert t == value && value[0..] == value;
    } else {
      assert t[|value|] == end[0] && t[v..|value|] == value[v..] && t[|value| + 1..] == end[1..];
      assert value[0..] == value;
    }
  }

  lemma NameThenValue(name: string, t: string)
    requires NameOk(name)
    ensures Attrs(name + "=" + t) == AtValue(name, t)
  {
    hide Attrs, AtValue;
    var s := name + ("=" + t);
    assert name + "=" + t == s;
    NameAtFront(name, "=" + t);
    assert s[|name|] == '=' && s[..|name|] == name && s[|name| + 1..] == t;
  }

  /** Nothing behind the equals sign, and there is no attribute; a quote alone is a value. */
  lemma ValueMissing(name: string)
    requires NameOk(name)
    ensures Attrs(name + "=") == [] && Attrs(name + "=" + "\"") == [Field(name, "\"")]
  {
    hide Attrs;
    NameThenValue(name, "");
    NameThenValue(name, "\"");
    assert name + "=" + "" == name + "=";
    assert "\""[0..] == "\"" && "\""[1..] == "";
    assert Percent.Decode("\"") == "\"";
  }
}
