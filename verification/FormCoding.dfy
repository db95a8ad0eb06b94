/** Percent-encoding of one form or query value, section 2 of RFC 3986, and the
    decoder the capture tool reads its redirect with. */
module FormCoding {
  import opened Wrappers
  import opened Octets
  import opened SizeLines

  const PERCENT: byte := 37
  const PLUS: byte := 43

  predicate IsUnreserved(b: byte) {
    IsLetter(b) || IsDigit(b) || b == 45 || b == 46 || b == 95 || b == 126
  }

  /** Upper-case hexadecimal digit. */
  function HexDigit(v: int): (c: byte)
    requires 0 <= v < 16
    ensures IsUpperHex(c) && HexValue(c) == v
  {
    if v < 10 then 48 + v else 55 + v
  }

  predicate IsUpperHex(c: byte) { IsDigit(c) || 65 <= c <= 70 }

  function Escape(b: byte): bytes { [PERCENT, HexDigit(b as int / 16), HexDigit(b as int % 16)] }

  function EncodeByte(b: byte): bytes { if IsUnreserved(b) then [b] else Escape(b) }

  function Encode(s: bytes): bytes {
    if s == [] then [] else EncodeByte(s[0]) + Encode(s[1..])
  }

  method FormEncode(value: bytes) returns (out: bytes)
    ensures out == Encode(value)
  {
    hide Encode, Escape, IsUnreserved;
    out := [];
    for i := 0 to |value|
      invariant out + Encode(value[i..]) == Encode(value)
    {
      var b := value[i];
      ghost var before := out;
      EncodeStep(value, i);
      if IsUnreserved(b) {
        out := out + [b];
      } else {
        out := out + Escape(b);
      }
      assert before + (EncodeByte(b) + Encode(value[i + 1..])) == out + Encode(value[i + 1..]);
    }
    EncodeEnd(value);
  }

  lemma EncodeStep(value: bytes, i: nat)
    requires i < |value|
    ensures Encode(value[i..]) == EncodeByte(value[i]) + Encode(value[i + 1..])
  {
    assert value[i..][1..] == value[i + 1..];
  }

  lemma EncodeEnd(value: bytes)
    ensures Encode(value[|value|..]) == []
  {
  }

  /** Two bytes read as a base-16 `u8`: like the standard parser, a plus sign may
      stand before the one digit. */
  function ParseHexPair(x: byte, y: byte): Option<byte> {
    if IsHexDigit(x) && IsHexDigit(y) then Some(HexValue(x) * 16 + HexValue(y))
    else if x == PLUS && IsHexDigit(y) then Some(HexValue(y))
    else None
  }

  // An escape is the first three bytes when they are `%` and a readable pair.
  function EscapedByte(s: bytes): Option<byte>
    requires s != []
  {
    if s[0] == PERCENT && |s| > 2 then ParseHexPair(s[1], s[2]) else None
  }

  function Decode(s: bytes): bytes {
    if s == [] then []
    else
      match EscapedByte(s)
      case Some(b) => [b] + Decode(s[3..])
      case None => [if s[0] == PLUS then SPACE else s[0]] + Decode(s[1..])
  }

  method FormDecode(value: bytes) returns (out: bytes)
    ensures out == Decode(value)
  {
    hide Decode, ParseHexPair;
    out := [];
    var i := 0;
    while i < |value|
      invariant i <= |value|
      invariant out + Decode(value[i..]) == Decode(value)
      decreases |value| - i
    {
      ghost var before := out;
      DecodeStep(value, i);
      if value[i] == PERCENT && i + 2 < |value| {
        match ParseHexPair(value[i + 1], value[i + 2])
        case Some(b) => out, i := out + [b], i + 3;
        case None => out, i := out + [PERCENT], i + 1;
      } else if value[i] == PLUS {
        out, i := out + [SPACE], i + 1;
      } else {
        out, i := out + [value[i]], i + 1;
      }
      assert before + (out[|before|..] + Decode(value[i..])) == out + Decode(value[i..]);
    }
    DecodeEnd(value);
  }

  lemma DecodeEnd(value: bytes)
    ensures Decode(value[|value|..]) == []
  {
  }

  // Decoding from an index, by the branches of the loop.
  lemma DecodeStep(value: bytes, i: nat)
    requires i < |value|
    ensures Decode(value[i..]) ==
            if value[i] == PERCENT && i + 2 < |value| && ParseHexPair(value[i + 1], value[i + 2]).Some?
            then [ParseHexPair(value[i + 1], value[i + 2]).value] + Decode(value[i + 3..])
            else [if value[i] == PLUS then SPACE else value[i]] + Decode(value[i + 1..])
  {
    hide ParseHexPair;
    var rest := value[i..];
    assert rest[1..] == value[i + 1..];
    if i + 2 < |value| { assert rest[3..] == value[i + 3..]; }
  }

  // ----- what one byte becomes -----

  const UNRESERVED: string := CAPITALS + SMALLS + DIGITS + "-._~"
  const HEX_LETTERS: string := "0123456789ABCDEF"

  /** One of these characters stays as it is; any other byte becomes a percent sign and its
      two digits in upper case. */
  lemma ByteIsEncoded(b: byte)
    ensures IsUnreserved(b) <==> exists k :: 0 <= k < |UNRESERVED| && UNRESERVED[k] as int == b
    ensures EncodeByte(b) == if IsUnreserved(b) then [b]
                             else [37, HEX_LETTERS[b as int / 16] as int, HEX_LETTERS[b as int % 16] as int]
  {
    AsciiOrder();
    if IsUnreserved(b) {
      var k: int := if b == 45 then 62 else if b == 46 then 63 else if b == 95 then 64 else if b == 126 then 65
                    else if b < 58 then b + 4 else if b < 91 then b - 65 else b - 71;
      assert 0 <= k < |UNRESERVED| && UNRESERVED[k] as int == b;
    }
    HexLettersAre();
  }

  /** Two characters are read as a byte exactly when both are hexadecimal digits, of either
      case, or the second is one behind a plus sign. */
  lemma PairIsRead(x: byte, y: byte)
    ensures forall v, w | 0 <= v < 16 && 0 <= w < 16 && IsDigitOf(x, v) && IsDigitOf(y, w) :: ParseHexPair(x, y) == Some(v * 16 + w)
    ensures forall w | 0 <= w < 16 && x == 43 && IsDigitOf(y, w) :: ParseHexPair(x, y) == Some(w)
    ensures ParseHexPair(x, y).Some? ==>
              (exists w :: 0 <= w < 16 && IsDigitOf(y, w)) && (x == 43 || exists v :: 0 <= v < 16 && IsDigitOf(x, v))
  {
    hide IsDigitOf;
    if IsHexDigit(x) { DigitMeans(x, HexValue(x)); }
    if IsHexDigit(y) { DigitMeans(y, HexValue(y)); }
    forall v | 0 <= v < 16 && IsDigitOf(x, v) ensures IsHexDigit(x) && HexValue(x) == v { DigitMeans(x, v); }
    forall w | 0 <= w < 16 && IsDigitOf(y, w) ensures IsHexDigit(y) && HexValue(y) == w { DigitMeans(y, w); }
  }

  /** Decoding takes a readable escape, a plus sign for a space, or one byte as it is. */
  lemma DecodesOneByOne(s: bytes)
    requires s != []
    ensures s[0] == 37 && |s| >= 3 && ParseHexPair(s[1], s[2]).Some? ==>
              Decode(s) == [ParseHexPair(s[1], s[2]).value] + Decode(s[3..])
    ensures s[0] == 37 && (|s| < 3 || ParseHexPair(s[1], s[2]).None?) ==> Decode(s) == [37] + Decode(s[1..])
    ensures s[0] == 43 ==> Decode(s) == [32] + Decode(s[1..])
    ensures s[0] != 37 && s[0] != 43 ==> Decode(s) == [s[0]] + Decode(s[1..])
  {
    hide ParseHexPair;
  }

  lemma HexLettersAre()
    ensures forall v | 0 <= v < 16 :: HexDigit(v) == HEX_LETTERS[v] as int
  {
  }

  // ----- what the pair keeps -----

  /** One byte's encoding is taken off the front whole, whatever follows. */
  lemma ByteDecodesBack(b: byte, tail: bytes)
    ensures Decode(EncodeByte(b) + tail) == [b] + Decode(tail)
  {
    var s := EncodeByte(b) + tail;
    assert s[|EncodeByte(b)|..] == tail;
  }

  /** Every byte string comes back, and what follows its encoding is decoded as if alone. */
  lemma {:induction false} DecodesBack(s: bytes, tail: bytes)
    ensures Decode(Encode(s) + tail) == s + Decode(tail)
  {
    hide Decode, EncodeByte;
    if s == [] {
      assert Encode(s) + tail == tail;
      assert s + Decode(tail) == Decode(tail);
    } else {
      assert Encode(s) + tail == EncodeByte(s[0]) + (Encode(s[1..]) + tail);
      ByteDecodesBack(s[0], Encode(s[1..]) + tail);
      DecodesBack(s[1..], tail);
      assert s + Decode(tail) == [s[0]] + (s[1..] + Decode(tail));
    }
  }

  lemma RoundTrip(s: bytes)
    ensures Decode(Encode(s)) == s
  {
    DecodesBack(s, []);
    assert Encode(s) + [] == Encode(s);
    assert s + Decode([]) == s;
  }

  /** The grammar of encodings: unreserved bytes as they are, and `%XX` in upper case
      for the others alone. */
  predicate IsEncoded(t: bytes) {
    t == []
    || (IsUnreserved(t[0]) && IsEncoded(t[1..]))
    || (IsEscape(t) && IsEncoded(t[3..]))
  }

  predicate IsEscape(t: bytes) {
    && |t| >= 3 && t[0] == PERCENT && IsUpperHex(t[1]) && IsUpperHex(t[2])
    && !IsUnreserved(HexValue(t[1]) * 16 + HexValue(t[2]))
  }

  lemma {:induction false} EncodingIsEncoded(s: bytes)
    ensures IsEncoded(Encode(s))
  {
    if s != [] {
      EncodingIsEncoded(s[1..]);
      assert Encode(s)[|EncodeByte(s[0])|..] == Encode(s[1..]);
    }
  }

  lemma EscapeOfItsByte(t: bytes)
    requires IsEscape(t)
    ensures EscapedByte(t).Some? && EncodeByte(EscapedByte(t).value) == t[..3]
  {
    var b := EscapedByte(t).value as int;
    assert b / 16 == HexValue(t[1]) && b % 16 == HexValue(t[2]);
  }

  lemma {:induction false} EncodedDecodesAndBack(t: bytes)
    requires IsEncoded(t)
    ensures Encode(Decode(t)) == t
  {
    hide EncodeByte;
    if t == [] {
    } else if IsUnreserved(t[0]) {
      EncodedDecodesAndBack(t[1..]);
      UnreservedIsItself(t[0]);
      assert Decode(t) == [t[0]] + Decode(t[1..]);
      assert t == [t[0]] + t[1..];
    } else {
      EscapeOfItsByte(t);
      EncodedDecodesAndBack(t[3..]);
      assert Decode(t) == [EscapedByte(t).value] + Decode(t[3..]);
      assert t == t[..3] + t[3..];
    }
  }

  lemma UnreservedIsItself(b: byte)
    requires IsUnreserved(b)
    ensures EncodeByte(b) == [b] && b != PLUS && b != PERCENT
  {
  }

  /** Decoding loses nothing about a text exactly when an encoder could have written it. */
  lemma ReencodesIffEncoded(t: bytes)
    ensures Encode(Decode(t)) == t <==> IsEncoded(t)
  {
    EncodingIsEncoded(Decode(t));
    if IsEncoded(t) { EncodedDecodesAndBack(t); }
  }

  /** Lower-case escapes, `+` for a space, an unfinished escape and a signed digit are all
      read: `%2f`, `a+b`, `%4` and `%+5`. No encoder writes them. */
  lemma LenientTexts()
    ensures Decode([37, 50, 102]) == [47] && Decode([97, 43, 98]) == [97, 32, 98]
    ensures Decode([37, 52]) == [37, 52] && Decode([37, 43, 53]) == [5]
  {
    var a, b, c, d := [37, 50, 102], [97, 43, 98], [37, 52], [37, 43, 53];
    assert a[3..] == [] && d[3..] == [];
    assert b[1..] == [43, 98] && b[1..][1..] == [98] && Decode([98]) == [98];
    assert c[1..] == [52] && Decode([52]) == [52];
  }
}
