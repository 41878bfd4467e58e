/** `Percent`: percent-encoding, sections 2.1 and 2.3 of RFC 3986, with `+` for a space on decoding. */
module Percent {
  import opened Wrappers
  import opened Text

  predicate IsUnreserved(c: char) {
    '0' <= c <= '9' || 'A' <= c <= 'Z' || 'a' <= c <= 'z' || c == '-' || c == '.' || c == '_' || c == '~'
  }

  predicate IsUpperHex(c: char) {
    '0' <= c <= '9' || 'A' <= c <= 'F'
  }

  const HEX_CHARS := "0123456789ABCDEF"

  function EncodeByte(c: Byte): string {
    if IsUnreserved(c) then [c] else ['%', HEX_CHARS[c as int / 16], HEX_CHARS[c as int % 16]]
  }

  function Encode(value: seq<Byte>): string {
    if value == [] then "" else EncodeByte(value[0]) + Encode(value[1..])
  }

  /** `static_cast<char>(std::strtol(hex, nullptr, 16))` of two characters. */
  function DecodePair(c: char, d: char): Byte {
    var n := Scan([c, d], 16);
    var v := Value(n.digits, 16) % 256;
    (if n.negative then (256 - v) % 256 else v) as char
  }

  function Decode(value: string): string {
    if value == "" then ""
    else if value[0] == '%' && |value| > 2 then [DecodePair(value[1], value[2])] + Decode(value[3..])
    else [if value[0] == '+' then ' ' else value[0]] + Decode(value[1..])
  }

  lemma EncodeAt(value: seq<Byte>, i: nat)
    requires i < |value|
    ensures Encode(value[i..]) == EncodeByte(value[i]) + Encode(value[i + 1..])
    ensures EncodeByte(value[i]) ==
            if IsUnreserved(value[i]) then [value[i]]
            else "%" + [HEX_CHARS[value[i] as int / 16]] + [HEX_CHARS[value[i] as int % 16]]
  {
    assert value[i..][1..] == value[i + 1..];
  }

  method EncodeValue(value: seq<Byte>) returns (result: string)
    ensures result == Encode(value)
  {
    hide Encode, EncodeByte, IsUnreserved;
    result := "";
    assert value[0..] == value;
    for i := 0 to |value|
      invariant result + Encode(value[i..]) == Encode(value)
    {
      EncodeAt(value, i);
      var chr := value[i];
      ghost var before := result;
      if !IsUnreserved(chr) {
        result := result + ("%" + [HEX_CHARS[chr as int / 16]] + [HEX_CHARS[chr as int % 16]]);
      } else {
        result := result + [chr];
      }
      assert result == before + EncodeByte(chr);
    }
    assert value[|value|..] == [] && result + Encode([]) == result by {
      EncodeNothing();
    }
  }

  lemma EncodeNothing()
    ensures Encode([]) == ""
  {
  }

  lemma DecodeAt(value: string, i: nat)
    requires i < |value|
    ensures Decode(value[i..]) ==
            if value[i] == '%' && i + 2 < |value| then [DecodePair(value[i + 1], value[i + 2])] + Decode(value[i + 3..])
            else [if value[i] == '+' then ' ' else value[i]] + Decode(value[i + 1..])
  {
    hide DecodePair;
    var rest := value[i..];
    assert rest[1..] == value[i + 1..];
    if value[i] == '%' && i + 2 < |value| {
      assert rest[3..] == value[i + 3..] && rest[1] == value[i + 1] && rest[2] == value[i + 2];
    }
  }

  method DecodeValue(value: string) returns (result: string)
    ensures result == Decode(value)
  {
    hide DecodePair, Decode;
    result := "";
    var i := 0;
    assert value[0..] == value;
    while i < |value|
      invariant 0 <= i <= |value|
      invariant result + Decode(value[i..]) == Decode(value)
    {
      DecodeAt(value, i);
      var chr := value[i];
      if chr == '%' && i + 2 < |value| {
        result := result + [DecodePair(value[i + 1], value[i + 2])];
        i := i + 2;
      } else if chr == '+' {
        result := result + [' '];
      } else {
        result := result + [chr];
      }
      i := i + 1;
    }
    assert value[i..] == "" && result + Decode("") == result by {
      DecodeNothing();
    }
  }

  lemma DecodeNothing()
    ensures Decode("") == ""
  {
  }

  /** Unreserved characters and triplets of `%` and two upper-case hexadecimal digits. */
  predicate IsEncoded(t: string) {
    t == ""
    || (IsUnreserved(t[0]) && IsEncoded(t[1..]))
    || (|t| >= 3 && t[0] == '%' && IsUpperHex(t[1]) && IsUpperHex(t[2]) && IsEncoded(t[3..]))
  }

  lemma EncodedByte(c: Byte)
    ensures if IsUnreserved(c) then EncodeByte(c) == [c]
            else |EncodeByte(c)| == 3 && EncodeByte(c)[0] == '%'
                 && IsUpperHex(EncodeByte(c)[1]) && IsUpperHex(EncodeByte(c)[2])
                 && DigitValue(EncodeByte(c)[1]) == Some(c as int / 16)
                 && DigitValue(EncodeByte(c)[2]) == Some(c as int % 16)
  {
  }

  lemma {:induction false} EncodeEmitsTriplets(value: seq<Byte>)
    ensures IsEncoded(Encode(value))
  {
    if value != [] {
      var t := Encode(value);
      EncodedByte(value[0]);
      EncodeEmitsTriplets(value[1..]);
      assert t[|EncodeByte(value[0])|..] == Encode(value[1..]);
    }
  }

  lemma {:induction false} EncodedHasNo(t: string, c: char)
    requires IsEncoded(t) && !IsUnreserved(c) && c != '%'
    ensures c !in t
  {
    if t != "" {
      if IsUnreserved(t[0]) && IsEncoded(t[1..]) {
        EncodedHasNo(t[1..], c);
        assert t == [t[0]] + t[1..];
      } else {
        EncodedHasNo(t[3..], c);
        assert t == [t[0], t[1], t[2]] + t[3..];
      }
    }
  }

  lemma HexPair(h: char, l: char)
    requires IsDigit(h, 16) && IsDigit(l, 16)
    ensures DecodePair(h, l) as int == DigitValue(h).value * 16 + DigitValue(l).value
  {
    hide Scan, Value, DigitValue;
    TwoDigits(h, l);
    ScanPair(h, l);
  }

  lemma ScanPair(h: char, l: char)
    requires IsDigit(h, 16) && IsDigit(l, 16)
    ensures Scan([h, l], 16) == Numeral(false, [h, l])
  {
    hide DigitValue, LeadingDigits;
    DigitIsNoSign(h, 16);
    var s := [h, l];
    LeadingDigitsOf(s, "", 16);
    assert s + "" == s;
    assert DropSpaces(s) == s;
  }

  lemma TwoDigits(h: char, l: char)
    requires IsDigit(h, 16) && IsDigit(l, 16)
    ensures Value([h, l], 16) == DigitValue(h).value * 16 + DigitValue(l).value
  {
    assert [h, l][..1] == [h] && [h][..0] == "";
    assert Value([h], 16) == DigitValue(h).value;
  }

  /** Decoding an encoded byte string gives the byte string back. */
  lemma {:induction false} DecodeEncode(value: seq<Byte>)
    ensures Decode(Encode(value)) == value
  {
    hide DecodePair, EncodeByte;
    if value != [] {
      var c, t := value[0], Encode(value);
      DecodeEncode(value[1..]);
      EncodedByte(c);
      assert t[|EncodeByte(c)|..] == Encode(value[1..]);
      if !IsUnreserved(c) {
        var pair := EncodeByte(c);
        assert t[1] == pair[1] && t[2] == pair[2];
        assert IsDigit(t[1], 16) && IsDigit(t[2], 16);
        HexPair(t[1], t[2]);
        assert DecodePair(t[1], t[2]) == c;
      }
    }
  }

  /** Decoding is not injective on arbitrary input: malformed triplets decode to a byte as well. */
  lemma MalformedTriplets()
    ensures DecodePair('z', 'z') == '\0' && DecodePair(' ', '1') == '\U{0001}' && DecodePair('-', '1') == '\U{00FF}'
  {
    assert "zz"[0] == 'z' && " 1"[1..] == "1" && "-1"[1..] == "1";
    assert LeadingDigits("1", 16) == "1" && "1"[..0] == "";
    assert Value("1", 16) == 1;
    assert DropSpaces(" 1") == "1";
    assert Scan("zz", 16) == Numeral(false, "");
    assert Scan(" 1", 16) == Numeral(false, "1");
    assert Scan("-1", 16) == Numeral(true, "1");
  }

  // ---------- the characters, and other encodings ----------

  /** The unreserved characters are those of section 2.3 of RFC 3986. */
  lemma UnreservedIff(c: char)
    ensures IsUnreserved(c) <==> c in UPPER_LETTERS || c in LOWER_LETTERS || c in "0123456789" || c in "-._~"
  {
    UpperIff(c);
    LowerIff(c);
    DecimalIff(c);
    hide UPPER_LETTERS, LOWER_LETTERS;
    var marks := "-._~";
    assert marks[0] == '-' && marks[1] == '.' && marks[2] == '_' && marks[3] == '~';
    assert c in marks <==> c == marks[0] || c == marks[1] || c == marks[2] || c == marks[3];
  }

  /** One character of an encoded form value: itself, a `+` for a space, or a triplet in either case. */
  datatype Piece = Plain(c: char) | Space | Triplet(byte: Byte, high: char, low: char)

  predicate PieceOk(p: Piece) {
    match p
    case Plain(c) => c != '%' && c != '+'
    case Space => true
    case Triplet(byte, high, low) =>
      && (high == LOWER_DIGITS[byte as int / 16] || high == UPPER_DIGITS[byte as int / 16])
      && (low == LOWER_DIGITS[byte as int % 16] || low == UPPER_DIGITS[byte as int % 16])
  }

  function PrintPiece(p: Piece): string {
    match p
    case Plain(c) => [c]
    case Space => "+"
    case Triplet(_, high, low) => ['%', high, low]
  }

  function Printed(ps: seq<Piece>): string {
    if ps == [] then "" else PrintPiece(ps[0]) + Printed(ps[1..])
  }

  function Meaning(p: Piece): char {
    match p
    case Plain(c) => c
    case Space => ' '
    case Triplet(byte, _, _) => byte
  }

  function Meant(ps: seq<Piece>): string {
    if ps == [] then "" else [Meaning(ps[0])] + Meant(ps[1..])
  }

  lemma TripletDecodes(byte: Byte, high: char, low: char)
    requires PieceOk(Triplet(byte, high, low))
    ensures DecodePair(high, low) == byte
  {
    hide LOWER_DIGITS, UPPER_DIGITS;
    var h, l := byte as int / 16, byte as int % 16;
    DigitValueIff(high, h);
    DigitValueIff(low, l);
    hide DigitValue, Scan, Value, DecodePair;
    assert IsDigit(high, 16) && IsDigit(low, 16);
    HexPair(high, low);
    assert h * 16 + l == byte as int;
  }

  /** Any mixture of them is decoded, and what is left of a triplet at the end stays as it is. */
  lemma {:induction false} FormDecodes(ps: seq<Piece>, tail: string)
    requires forall p :: p in ps ==> PieceOk(p)
    requires tail == "" || (tail[0] == '%' && |tail| <= 2 && (|tail| == 2 ==> tail[1] != '+'))
    ensures Decode(Printed(ps) + tail) == Meant(ps) + tail
  {
    hide Decode, PieceOk, Meaning, PrintPiece;
    if ps == [] {
      assert "" + tail == tail;
      EndStays(tail);
    } else {
      var p, front, meant := ps[0], Printed(ps[1..]), Meant(ps[1..]);
      assert Printed(ps) == PrintPiece(p) + front && Meant(ps) == [Meaning(p)] + meant;
      FormDecodes(ps[1..], tail);
      hide Printed, Meant;
      PieceDecodes(p, front + tail);
      Moved(PrintPiece(p), front, tail);
      Moved([Meaning(p)], meant, tail);
    }
  }

  lemma Moved(a: string, b: string, c: string)
    ensures (a + b) + c == a + (b + c)
  {
  }

  lemma EndStays(tail: string)
    requires tail == "" || (tail[0] == '%' && |tail| <= 2 && (|tail| == 2 ==> tail[1] != '+'))
    ensures Decode(tail) == tail
  {
    hide DecodePair;
    if |tail| == 2 {
      assert tail[1..] == [tail[1]] && tail[1..][1..] == "" && tail == [tail[0]] + [tail[1]];
      assert Decode([tail[1]]) == [tail[1]];
    } else if |tail| == 1 {
      assert tail[1..] == "" && tail == [tail[0]];
    }
  }

  lemma PieceDecodes(p: Piece, rest: string)
    requires PieceOk(p)
    ensures Decode(PrintPiece(p) + rest) == [Meaning(p)] + Decode(rest)
  {
    var s := PrintPiece(p) + rest;
    assert s[|PrintPiece(p)|..] == rest;
    if p.Triplet? {
      TripletDecodes(p.byte, p.high, p.low);
    }
    hide DecodePair;
  }
}
