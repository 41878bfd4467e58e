/** `QueryString`: field lists to query strings and back. A multimap appears as the sequence of its
    fields in iteration order, respectively in order of insertion. */
module QueryString {
  import opened Wrappers
  import opened Text
  import Percent

  datatype Field = Field(name: string, value: string)

  predicate IsBytes(s: string) {
    forall i :: 0 <= i < |s| ==> s[i] < '\U{0100}'
  }

  ghost predicate AllBytes(fields: seq<Field>) {
    forall f :: f in fields ==> IsBytes(f.value)
  }

  // ---------- create ----------

  function Pair(f: Field): string
    requires IsBytes(f.value)
  {
    f.name + "=" + Percent.Encode(f.value)
  }

  function Query(fields: seq<Field>): string
    requires AllBytes(fields)
  {
    if fields == [] then ""
    else Query(fields[..|fields| - 1]) + (if |fields| > 1 then "&" else "") + Pair(fields[|fields| - 1])
  }

  method Create(fields: seq<Field>) returns (result: string)
    requires AllBytes(fields)
    ensures result == Query(fields)
  {
    result := "";
    var first := true;
    for i := 0 to |fields|
      invariant first <==> i == 0
      invariant result == Query(fields[..i])
    {
      assert fields[..i + 1][..i] == fields[..i];
      var encoded := Percent.EncodeValue(fields[i].value);
      result := result + (if !first then "&" else "") + (fields[i].name + "=" + encoded);
      first := false;
    }
    assert fields[..|fields|] == fields;
  }

  // ---------- parse ----------

  /** The field of one `&`-separated piece: split at its last `=`, dropped if the name is empty. */
  function FieldOf(piece: string): seq<Field> {
    match FindLast(piece, '=')
    case None => if piece == "" then [] else [Field(piece, "")]
    case Some(k) => if k == 0 then [] else [Field(piece[..k], Percent.Decode(piece[k + 1..]))]
  }

  function Fields(query: string): seq<Field>
    decreases |query|
  {
    match Find(query, '&')
    case None => FieldOf(query)
    case Some(k) => FieldOf(query[..k]) + Fields(query[k + 1..])
  }

  lemma FieldsSplit(piece: string, rest: string)
    requires '&' !in piece
    ensures Fields(piece + "&" + rest) == FieldOf(piece) + Fields(rest)
  {
    hide FieldOf;
    FindAfter(piece, '&', rest);
    var s := piece + ['&'] + rest;
    assert s[..|piece|] == piece && s[|piece| + 1..] == rest;
  }

  lemma FieldsOfPiece(piece: string)
    requires '&' !in piece
    ensures Fields(piece) == FieldOf(piece)
  {
    FindNone(piece, '&');
  }

  /** `s[namePos..c]` is free of `&` and `nameEnd` is the position of its last `=`. */
  ghost predicate InPiece(s: string, namePos: nat, c: nat, nameEnd: Option<nat>) {
    && namePos <= c <= |s|
    && '&' !in s[namePos..c]
    && match FindLast(s[namePos..c], '=')
       case None => nameEnd == None
       case Some(k) => nameEnd == Some(namePos + k)
  }

  lemma PieceStep(s: string, namePos: nat, c: nat, nameEnd: Option<nat>)
    requires c < |s| && InPiece(s, namePos, c, nameEnd) && s[c] != '&'
    ensures InPiece(s, namePos, c + 1, if s[c] == '=' then Some(c) else nameEnd)
  {
    hide FindLast;
    assert s[namePos..c + 1] == s[namePos..c] + [s[c]];
    FindLastStep(s[namePos..c], '=', s[c]);
  }

  lemma PieceStart(s: string, c: nat)
    requires c <= |s|
    ensures InPiece(s, c, c, None)
  {
    assert s[c..c] == "";
  }

  /** What `result.emplace(name, Percent::decode(value))` adds, unless the name is empty. */
  function Emitted(name: string, value: string): seq<Field> {
    if name == "" then [] else [Field(name, Percent.Decode(value))]
  }

  method Emplace(fields: seq<Field>, name: string, value: string) returns (result: seq<Field>)
    ensures result == fields + Emitted(name, value)
  {
    result := fields;
    if name != "" {
      var decoded := Percent.DecodeValue(value);
      result := result + [Field(name, decoded)];
    }
  }

  function NameOf(s: string, namePos: nat, c: nat, nameEnd: Option<nat>): string
    requires namePos <= c <= |s| && (nameEnd.Some? ==> namePos <= nameEnd.value < c)
  {
    s[namePos..if nameEnd == None then c else nameEnd.value]
  }

  function ValueOf(s: string, c: nat, nameEnd: Option<nat>): string
    requires c <= |s| && (nameEnd.Some? ==> nameEnd.value < c)
  {
    if nameEnd == None then "" else s[nameEnd.value + 1..c]
  }

  /** The name and value that the positions stand for make up the field of the piece. */
  lemma PieceField(s: string, namePos: nat, c: nat, nameEnd: Option<nat>)
    requires InPiece(s, namePos, c, nameEnd)
    ensures namePos <= c <= |s| && (nameEnd.Some? ==> namePos <= nameEnd.value < c)
    ensures FieldOf(s[namePos..c]) == Emitted(NameOf(s, namePos, c, nameEnd), ValueOf(s, c, nameEnd))
  {
    hide Percent.Decode;
    var piece := s[namePos..c];
    match FindLast(piece, '=')
    case None =>
      DecodeOfEmpty();
    case Some(k) =>
      assert piece[..k] == s[namePos..namePos + k];
      assert piece[k + 1..] == s[namePos + k + 1..c];
  }

  lemma DecodeOfEmpty()
    ensures Percent.Decode("") == ""
  {
  }

  lemma PieceDone(s: string, namePos: nat, c: nat, nameEnd: Option<nat>)
    requires InPiece(s, namePos, c, nameEnd) && (c < |s| ==> s[c] == '&')
    ensures namePos <= c <= |s| && (nameEnd.Some? ==> namePos <= nameEnd.value < c)
    ensures var emitted := Emitted(NameOf(s, namePos, c, nameEnd), ValueOf(s, c, nameEnd));
            Fields(s[namePos..]) == if c < |s| then emitted + Fields(s[c + 1..]) else emitted
  {
    hide FieldOf, Fields, FindLast, NameOf, ValueOf, Emitted;
    PieceField(s, namePos, c, nameEnd);
    if c < |s| {
      FieldsSplit(s[namePos..c], s[c + 1..]);
      assert s[namePos..] == s[namePos..c] + "&" + s[c + 1..];
    } else {
      FieldsOfPiece(s[namePos..c]);
      assert s[namePos..c] == s[namePos..];
    }
  }

  method Parse(query: string) returns (result: seq<Field>)
    ensures result == Fields(query)
  {
    hide Emitted, FieldOf, Fields, InPiece;
    result := [];
    assert query[0..] == query && [] + Fields(query) == Fields(query);
    PieceStart(query, 0);
    var namePos := 0;
    var nameEndPos: Option<nat> := None;
    var valuePos: Option<nat> := None;
    for c := 0 to |query|
      invariant 0 <= namePos <= c && (nameEndPos.Some? ==> namePos <= nameEndPos.value < c)
      invariant InPiece(query, namePos, c, nameEndPos)
      invariant valuePos == if nameEndPos == None then None else Some(nameEndPos.value + 1)
      invariant result + Fields(query[namePos..]) == Fields(query)
    {
      if query[c] == '&' {
        PieceDone(query, namePos, c, nameEndPos);
        var name := query[namePos..if nameEndPos == None then c else nameEndPos.value];
        var value := if valuePos == None then "" else query[valuePos.value..c];
        assert name == NameOf(query, namePos, c, nameEndPos) && value == ValueOf(query, c, nameEndPos);
        Joined(result, Emitted(name, value), Fields(query[c + 1..]));
        result := Emplace(result, name, value);
        PieceStart(query, c + 1);
        namePos := c + 1;
        nameEndPos := None;
        valuePos := None;
      } else {
        PieceStep(query, namePos, c, nameEndPos);
        if query[c] == '=' {
          nameEndPos := Some(c);
          valuePos := Some(c + 1);
        }
      }
    }
    PieceDone(query, namePos, |query|, nameEndPos);
    if namePos < |query| {
      var name := query[namePos..if nameEndPos == None then |query| else nameEndPos.value];
      var value := if valuePos == None || valuePos.value >= |query| then "" else query[valuePos.value..];
      assert value == ValueOf(query, |query|, nameEndPos);
      result := Emplace(result, name, value);
    } else {
      assert NameOf(query, namePos, |query|, nameEndPos) == "";
      EmittedNothing(ValueOf(query, |query|, nameEndPos));
      assert result + [] == result;
    }
  }

  lemma Joined(a: seq<Field>, b: seq<Field>, c: seq<Field>)
    ensures (a + b) + c == a + (b + c)
  {
  }

  lemma EmittedNothing(value: string)
    ensures Emitted("", value) == []
  {
  }

  // ---------- round trip ----------

  /** Names that survive: not empty and without `&` (a `=` in a name does no harm). */
  predicate NameOk(name: string) {
    name != "" && '&' !in name
  }

  lemma PairParses(f: Field)
    requires IsBytes(f.value) && f.name != ""
    ensures FieldOf(Pair(f)) == [f]
  {
    var encoded := Percent.Encode(f.value);
    Percent.EncodeEmitsTriplets(f.value);
    Percent.EncodedHasNo(encoded, '=');
    FindLastBefore(f.name, '=', encoded);
    assert Pair(f) == f.name + ['='] + encoded;
    assert Pair(f)[..|f.name|] == f.name && Pair(f)[|f.name| + 1..] == encoded;
    Percent.DecodeEncode(f.value);
  }

  /** An ampersand separates any two query strings. */
  lemma {:induction false} FieldsDistribute(a: string, b: string)
    ensures Fields(a + "&" + b) == Fields(a) + Fields(b)
    decreases |a|
  {
    hide FieldOf, Fields, Find;
    FindIsFirst(a, '&');
    match Find(a, '&')
    case None =>
      FieldsOfPiece(a);
      FieldsSplit(a, b);
    case Some(k) =>
      var piece, rest := a[..k], a[k + 1..];
      assert a == piece + "&" + rest;
      FieldsSplit(piece, rest);
      FieldsDistribute(rest, b);
      FieldsSplit(piece, rest + "&" + b);
      assert a + "&" + b == piece + "&" + (rest + "&" + b);
  }

  lemma PairIsOneField(f: Field)
    requires IsBytes(f.value) && NameOk(f.name)
    ensures Fields(Pair(f)) == [f]
  {
    hide FieldOf;
    Percent.EncodeEmitsTriplets(f.value);
    Percent.EncodedHasNo(Percent.Encode(f.value), '&');
    FindNone(Pair(f), '&');
    PairParses(f);
  }

  lemma {:induction false} GoodNamesSurvive(fields: seq<Field>)
    requires AllBytes(fields)
    requires forall f :: f in fields ==> NameOk(f.name)
    ensures Fields(Query(fields)) == fields
  {
    hide Pair, Fields;
    if fields != [] {
      var init, last := fields[..|fields| - 1], fields[|fields| - 1];
      assert fields == init + [last];
      GoodNamesSurvive(init);
      PairIsOneField(last);
      if init == [] {
        assert "" + "" + Pair(last) == Pair(last);
      } else {
        FieldsDistribute(Query(init), Pair(last));
      }
    } else {
      NoFields();
    }
  }

  lemma NoFields()
    ensures Fields("") == []
  {
  }

  lemma FieldName(piece: string)
    requires '&' !in piece
    ensures forall f :: f in FieldOf(piece) ==> NameOk(f.name)
  {
    hide Percent.Decode;
    match FindLast(piece, '=')
    case None =>
    case Some(k) =>
      assert forall c :: c in piece[..k] ==> c in piece;
  }

  /** `parse` never yields a name that is empty or contains `&`. */
  lemma {:induction false} ParsedNames(query: string)
    ensures forall f :: f in Fields(query) ==> NameOk(f.name)
    decreases |query|
  {
    hide Percent.Decode;
    FindIsFirst(query, '&');
    match Find(query, '&')
    case None =>
      FieldName(query);
    case Some(k) =>
      FieldName(query[..k]);
      ParsedNames(query[k + 1..]);
  }

  /** Round trip: for every field list in every iteration order, parsing the created query string
      returns the same fields exactly if all names are non-empty and free of `&`. */
  lemma RoundTrip(fields: seq<Field>)
    requires AllBytes(fields)
    ensures Fields(Query(fields)) == fields <==> forall f :: f in fields ==> NameOk(f.name)
  {
    ParsedNames(Query(fields));
    if forall f :: f in fields ==> NameOk(f.name) {
      GoodNamesSurvive(fields);
    }
  }

  // ---------- other query strings ----------

  /** A piece without an equals sign is a name with an empty value; one with a value is split at its last
      equals sign; a piece without a name is nothing. */
  lemma PieceMeaning(name: string, value: string)
    requires '&' !in name && '&' !in value && '=' !in value
    ensures '=' !in name ==> Fields(name) == if name == "" then [] else [Field(name, "")]
    ensures Fields(name + "=" + value) == if name == "" then [] else [Field(name, Percent.Decode(value))]
  {
    hide Percent.Decode, Fields;
    FieldsOfPiece(name);
    if '=' !in name {
      FindLastIsLast(name, '=');
    }
    var piece := name + "=" + value;
    FieldsOfPiece(piece);
    FindLastBefore(name, '=', value);
    assert piece == name + ['='] + value;
    assert piece[..|name|] == name && piece[|name| + 1..] == value;
  }
}
