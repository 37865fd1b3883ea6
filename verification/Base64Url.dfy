/**
 Unpadded base64url as Go's base64.RawURLEncoding implements it (section 5 of RFC 4648):
 the decoder skips carriage returns and line feeds and ignores the unused bits of the last character.
 */
module Base64Url {
  import opened Wrappers

  type sextet = v: int | 0 <= v < 64

  /** 'A'..'Z', 'a'..'z', '0'..'9', '-', '_' */
  function Digit(v: sextet): (c: byte)
    ensures c != '.' as int && c != 10 && c != 13
  {
    if v < 26 then 65 + v
    else if v < 52 then 97 + v - 26
    else if v < 62 then 48 + v - 52
    else if v == 62 then 45 else 95
  }

  function Value(c: byte): Option<sextet> {
    if 65 <= c <= 90 then Some(c - 65)
    else if 97 <= c <= 122 then Some(c - 97 + 26)
    else if 48 <= c <= 57 then Some(c - 48 + 52)
    else if c == 45 then Some(62)
    else if c == 95 then Some(63)
    else None
  }

  /** The alphabet of section 5 of RFC 4648: upper-case letters, lower-case letters, figures, minus and underscore. */
  lemma DigitIsOfAlphabet(v: sextet)
    ensures v < 26 ==> Digit(v) == 'A' as int + v
    ensures 26 <= v < 52 ==> Digit(v) == 'a' as int + (v - 26)
    ensures 52 <= v < 62 ==> Digit(v) == '0' as int + (v - 52)
    ensures Digit(62) == '-' as int && Digit(63) == '_' as int
  {
  }

  lemma DigitHasItsValue(v: sextet)
    ensures Value(Digit(v)) == Some(v)
  {
  }

  /** The data cut into groups of six bits, the last group filled up with zeros. */
  function Sextets(data: seq<byte>): seq<sextet> {
    if data == [] then []
    else
      var a := data[0];
      if |data| == 1 then [a / 4, a % 4 * 16]
      else
        var b := data[1];
        if |data| == 2 then [a / 4, a % 4 * 16 + b / 16, b % 16 * 4]
        else [a / 4, a % 4 * 16 + b / 16, b % 16 * 4 + data[2] / 64, data[2] % 64] + Sextets(data[3..])
  }

  function Digits(v: seq<sextet>): seq<byte> {
    if v == [] then [] else [Digit(v[0])] + Digits(v[1..])
  }

  function Encode(data: seq<byte>): seq<byte> {
    Digits(Sextets(data))
  }

  function StripNewlines(s: seq<byte>): seq<byte> {
    if s == [] then []
    else if s[0] == 10 || s[0] == 13 then StripNewlines(s[1..])
    else [s[0]] + StripNewlines(s[1..])
  }

  function Values(s: seq<byte>): Option<seq<sextet>> {
    if s == [] then Some([])
    else
      match (Value(s[0]), Values(s[1..]))
      case (Some(v), Some(rest)) => Some([v] + rest)
      case _ => None
  }

  /** Four digits make three bytes; two or three left over make one or two; one left over is an error. */
  function Bytes(v: seq<sextet>): Option<seq<byte>> {
    if v == [] then Some([])
    else if |v| == 1 then None
    else
      var b0: byte := v[0] as int * 4 + v[1] as int / 16;
      if |v| == 2 then Some([b0])
      else
        var b1: byte := v[1] as int % 16 * 16 + v[2] as int / 4;
        if |v| == 3 then Some([b0, b1])
        else
          var b2: byte := v[2] as int % 4 * 64 + v[3] as int;
          match Bytes(v[4..])
          case Some(rest) => Some([b0, b1, b2] + rest)
          case None => None
  }

  function Decode(s: seq<byte>): Option<seq<byte>> {
    match Values(StripNewlines(s))
    case Some(v) => Bytes(v)
    case None => None
  }

  // ---------------------------------------------------------------- the groups of section 4 of RFC 4648

  /** Three bytes, read as one number with the first byte on top, are cut into four groups of six bits from the top;
      one or two bytes left over are filled up with zero bits. */
  lemma GroupsFromTheTop(a: byte, b: byte, c: byte)
    ensures var v := Sextets([a, b, c]);
            |v| == 4 && ((v[0] as int * 64 + v[1] as int) * 64 + v[2] as int) * 64 + v[3] as int ==
                (a as int * 256 + b) * 256 + c
    ensures var v := Sextets([a, b]);
            |v| == 3 && (v[0] as int * 64 + v[1] as int) * 64 + v[2] as int == (a as int * 256 + b) * 4
    ensures var v := Sextets([a]);
            |v| == 2 && v[0] as int * 64 + v[1] as int == a as int * 16
  {
    assert [a, b, c][3..] == [];
  }

  /** Longer data is cut three bytes at a time. */
  lemma GroupsInTurn(head: seq<byte>, rest: seq<byte>)
    requires |head| == 3
    ensures Sextets(head + rest) == Sextets(head) + Sextets(rest)
  {
    assert head[3..] == [] && (head + rest)[3..] == rest;
  }

  // ---------------------------------------------------------------- what is decoded at all

  predicate Newline(c: byte) {
    c == 10 || c == 13
  }

  lemma {:induction false} StripMeaning(s: seq<byte>)
    ensures forall c :: c in StripNewlines(s) <==> c in s && !Newline(c)
  {
    if s == [] {
    } else {
      StripMeaning(s[1..]);
    }
  }

  lemma {:induction false} StripAppend(a: seq<byte>, b: seq<byte>)
    ensures StripNewlines(a + b) == StripNewlines(a) + StripNewlines(b)
  {
    if a == [] {
      assert a + b == b;
    } else {
      assert (a + b)[1..] == a[1..] + b;
      StripAppend(a[1..], b);
    }
  }

  lemma {:induction false} ValuesIff(s: seq<byte>)
    ensures Values(s).Some? <==> forall c :: c in s ==> Value(c).Some?
    ensures Values(s).Some? ==> |Values(s).value| == |s|
  {
    if s == [] {
    } else {
      ValuesIff(s[1..]);
      assert s == [s[0]] + s[1..];
    }
  }

  lemma {:induction false} BytesIff(v: seq<sextet>)
    ensures Bytes(v).Some? <==> |v| % 4 != 1
  {
    if |v| < 4 {
    } else {
      BytesIff(v[4..]);
    }
  }

  /** Newlines, wherever they stand, are skipped; what is left must be characters of the alphabet, and their number
      must not be one more than a multiple of four. */
  lemma DecodesIff(s: seq<byte>)
    ensures Decode(s).Some? <==>
            && (forall c :: c in s ==> Newline(c) || exists v: sextet :: Digit(v) == c)
            && |StripNewlines(s)| % 4 != 1
  {
    StripMeaning(s);
    ValuesIff(StripNewlines(s));
    forall c: byte ensures Value(c).Some? <==> exists v: sextet :: Digit(v) == c {
      if Value(c).Some? {
        assert Digit(Value(c).value) == c;
      }
      if v: sextet :| Digit(v) == c {
        DigitHasItsValue(v);
      }
    }
    if Values(StripNewlines(s)).Some? {
      BytesIff(Values(StripNewlines(s)).value);
    }
  }

  lemma NewlinesAreSkipped(a: seq<byte>, c: byte, b: seq<byte>)
    requires Newline(c)
    ensures Decode(a + [c] + b) == Decode(a + b)
  {
    StripAppend(a + [c], b);
    StripAppend(a, [c]);
    StripAppend(a, b);
    assert [c][1..] == [];
    assert StripNewlines([c]) == [] && StripNewlines(a) + [] == StripNewlines(a);
  }

  // ---------------------------------------------------------------- decoding what was encoded

  lemma {:induction false} SextetsToBytes(data: seq<byte>)
    ensures Bytes(Sextets(data)) == Some(data)
  {
    if data == [] {
    } else if |data| == 1 {
      assert data == [data[0]];
      OneByte(data[0]);
    } else if |data| == 2 {
      assert data == [data[0], data[1]];
      TwoBytes(data[0], data[1]);
    } else {
      SextetsToBytes(data[3..]);
      assert Sextets(data)[4..] == Sextets(data[3..]);
      ThreeBytes(data[0], data[1], data[2]);
      assert data == [data[0], data[1], data[2]] + data[3..];
    }
  }

  lemma OneByte(a: byte)
    ensures Bytes([a / 4, a % 4 * 16]) == Some([a])
  {
    ThreeBytes(a, 0, 0);
  }

  lemma TwoBytes(a: byte, b: byte)
    ensures Bytes([a / 4, a % 4 * 16 + b / 16, b % 16 * 4]) == Some([a, b])
  {
    ThreeBytes(a, b, 0);
  }

  lemma ThreeBytes(a: byte, b: byte, c: byte)
    ensures (a / 4) as int * 4 + (a % 4 * 16 + b / 16) as int / 16 == a
    ensures (a % 4 * 16 + b / 16) as int % 16 * 16 + (b % 16 * 4 + c / 64) as int / 4 == b
    ensures (b % 16 * 4 + c / 64) as int % 4 * 64 + (c % 64) as int == c
  {
  }

  lemma {:induction false} ValuesOfDigits(v: seq<sextet>)
    ensures Values(Digits(v)) == Some(v)
  {
    if v == [] {
    } else {
      DigitHasItsValue(v[0]);
      ValuesOfDigits(v[1..]);
      assert Digits(v)[1..] == Digits(v[1..]);
      assert [v[0]] + v[1..] == v;
    }
  }

  /** No digit is a dot, a carriage return or a line feed. */
  lemma {:induction false} DigitsArePlain(v: seq<sextet>)
    ensures StripNewlines(Digits(v)) == Digits(v)
    ensures '.' as int !in Digits(v)
  {
    if v == [] {
    } else {
      DigitsArePlain(v[1..]);
      assert Digits(v)[1..] == Digits(v[1..]);
    }
  }

  lemma DecodesWhatWasEncoded(data: seq<byte>)
    ensures Decode(Encode(data)) == Some(data)
    ensures '.' as int !in Encode(data)
  {
    DigitsArePlain(Sextets(data));
    ValuesOfDigits(Sextets(data));
    SextetsToBytes(data);
  }
}
