/** Unpadded base64url, section 5 of RFC 4648, and the code verifier it spells. */
module Base64Url {
  import opened Wrappers
  import opened Octets

  const UNDERSCORE: byte := 95
  const HYPHEN: byte := 45

  type sextet = x: int | 0 <= x < 64

  /** The alphabet, as the source lists it. */
  function Letter(v: sextet): (c: byte)
    ensures IsBase64Url(c)
  {
    if v < 26 then 65 + v
    else if v < 52 then 97 + (v - 26)
    else if v < 62 then 48 + (v - 52)
    else if v == 62 then HYPHEN
    else UNDERSCORE
  }

  predicate IsBase64Url(c: byte) { IsLetter(c) || IsDigit(c) || c == HYPHEN || c == UNDERSCORE }

  function Value(c: byte): sextet
    requires IsBase64Url(c)
  {
    if 65 <= c <= 90 then c - 65
    else if 97 <= c <= 122 then c - 97 + 26
    else if IsDigit(c) then c - 48 + 52
    else if c == HYPHEN then 62
    else 63
  }

  const ALPHABET: string := CAPITALS + SMALLS + DIGITS + "-_"

  /** The letters, one by one. */
  lemma LettersOfTheAlphabet(v: sextet)
    ensures |ALPHABET| == 64 && Letter(v) == ALPHABET[v] as int
  {
    AsciiOrder();
  }

  lemma ValueIsInvertible(c: byte)
    requires IsBase64Url(c)
    ensures Letter(Value(c)) == c
  {
  }

  // ----- groups of three -----

  /** Three bytes as one 24-bit number. */
  function Join(a: byte, b: byte, c: byte): nat {
    a as int * 65536 + b as int * 256 + c as int
  }

  /** The 24 bits of a group, missing bytes as zero. */
  function Bits(chunk: bytes): nat
    requires 1 <= |chunk| <= 3
  {
    Join(chunk[0], if |chunk| > 1 then chunk[1] else 0, if |chunk| > 2 then chunk[2] else 0)
  }

  /** The right shift and mask that select letter `i`. */
  function Sextet(n: nat, i: nat): sextet
    requires i < 4
  {
    (if i == 0 then n / 262144 else if i == 1 then n / 4096 else if i == 2 then n / 64 else n) % 64
  }

  function Letters(n: nat, count: nat): (s: bytes)
    requires count <= 4
    ensures |s| == count
    ensures forall i | 0 <= i < count :: s[i] == Letter(Sextet(n, i))
  {
    seq(count, i requires 0 <= i < count => Letter(Sextet(n, i)))
  }

  /** The encoding: one letter more than bytes for each group. */
  function Encode(data: bytes): (s: bytes)
    ensures Spelled(s)
  {
    if data == [] then []
    else if |data| < 3 then Letters(Bits(data), |data| + 1)
    else Letters(Bits(data[..3]), 4) + Encode(data[3..])
  }

  /** The nested loops of `base64url_nopad`. */
  method Base64UrlNoPad(data: bytes) returns (out: bytes)
    ensures out == Encode(data)
  {
    hide Encode, Bits, Letter, Sextet;
    out := [];
    var at := 0;
    while at < |data|
      invariant at <= |data|
      invariant Encode(data) == out + Encode(data[at..])
      decreases |data| - at
    {
      var end := if at + 3 <= |data| then at + 3 else |data|;
      var chunk := data[at..end];
      var n := Bits(chunk);
      var keep := |chunk| + 1;
      ghost var before := out;
      ghost var group := Letters(n, keep);
      var i := 0;
      while i < keep
        invariant i <= keep
        invariant out == before + group[..i]
      {
        assert group[..i + 1] == group[..i] + [Letter(Sextet(n, i))];
        out := out + [Letter(Sextet(n, i))];
        i := i + 1;
      }
      assert group[..keep] == group;
      EncodeGroup(data[at..], chunk);
      assert data[at..][|chunk|..] == data[end..];
      assert before + (group + Encode(data[end..])) == out + Encode(data[end..]);
      at := end;
    }
    assert data[at..] == [];
    EncodeNothing();
    assert out + [] == out;
  }

  lemma EncodeNothing()
    ensures Encode([]) == []
  {
  }

  lemma EncodeGroup(rest: bytes, chunk: bytes)
    requires rest != [] && chunk == rest[..if |rest| < 3 then |rest| else 3]
    ensures Encode(rest) == Letters(Bits(chunk), |chunk| + 1) + Encode(rest[|chunk|..])
  {
    if |rest| < 3 {
      assert chunk == rest && rest[|chunk|..] == [];
      assert Letters(Bits(chunk), |chunk| + 1) + [] == Letters(Bits(chunk), |chunk| + 1);
    }
  }

  // ----- decoding -----

  /** Four letters as one 24-bit number. */
  function Gather(p: sextet, q: sextet, r: sextet, s: sextet): nat {
    p as int * 262144 + q as int * 4096 + r as int * 64 + s as int
  }

  predicate Spelled(s: bytes) { forall i | 0 <= i < |s| :: IsBase64Url(s[i]) }

  /** The bytes of a group of two to four letters whose unused low bits are zero. */
  function DecodeGroup(s: bytes): Option<bytes>
    requires 2 <= |s| <= 4 && Spelled(s)
  {
    var n := Gather(Value(s[0]), Value(s[1]), if |s| > 2 then Value(s[2]) else 0, if |s| > 3 then Value(s[3]) else 0);
    var a, b, c := n / 65536 % 256, n / 256 % 256, n % 256;
    if |s| == 4 then Some([a, b, c])
    else if |s| == 3 then if c == 0 then Some([a, b]) else None
    else if b == 0 && c == 0 then Some([a]) else None
  }

  function Decode(s: bytes): Option<bytes> {
    if !Spelled(s) || |s| == 1 then None
    else if s == [] then Some([])
    else if |s| < 4 then DecodeGroup(s)
    else
      match (DecodeGroup(s[..4]), Decode(s[4..]))
      case (Some(front), Some(rest)) => Some(front + rest)
      case _ => None
  }

  // The same 24 bits, read as three bytes or as four letters.
  lemma JoinIsGather(a: byte, b: byte, c: byte)
    ensures Join(a, b, c) == Gather(a / 4, a % 4 * 16 + b / 16, b % 16 * 4 + c / 64, c % 64)
  {
  }

  lemma GatherIsJoin(p: sextet, q: sextet, r: sextet, s: sextet)
    ensures Gather(p, q, r, s) == Join(p * 4 + q / 16, q % 16 * 16 + r / 4, r % 4 * 64 + s)
  {
  }

  lemma SextetsOfGather(p: sextet, q: sextet, r: sextet, s: sextet)
    ensures var n := Gather(p, q, r, s);
            Sextet(n, 0) == p && Sextet(n, 1) == q && Sextet(n, 2) == r && Sextet(n, 3) == s
  {
    var n := Gather(p, q, r, s);
    assert n / 64 == p * 4096 + q * 64 + r;
    assert n / 4096 == p * 64 + q;
    assert n / 262144 == p;
  }

  lemma BytesOfJoin(a: byte, b: byte, c: byte)
    ensures var n := Join(a, b, c); n / 65536 % 256 == a && n / 256 % 256 == b && n % 256 == c
  {
    var n := Join(a, b, c);
    assert n / 256 == a as int * 256 + b;
    assert n / 65536 == a;
  }

  lemma LettersAreSpelled(n: nat, count: nat)
    requires count <= 4
    ensures Spelled(Letters(n, count))
    ensures forall i | 0 <= i < count :: Value(Letters(n, count)[i]) == Sextet(n, i)
  {
  }

  lemma GroupDecodesBack(chunk: bytes)
    requires 1 <= |chunk| <= 3
    ensures Spelled(Letters(Bits(chunk), |chunk| + 1))
    ensures DecodeGroup(Letters(Bits(chunk), |chunk| + 1)) == Some(chunk)
  {
    hide Join, Gather, Sextet, Letters, Value, Letter;
    var a, b, c := chunk[0], if |chunk| > 1 then chunk[1] else 0, if |chunk| > 2 then chunk[2] else 0;
    var n := Bits(chunk);
    LettersAreSpelled(n, |chunk| + 1);
    JoinIsGather(a, b, c);
    SextetsOfGather(a / 4, a % 4 * 16 + b / 16, b % 16 * 4 + c / 64, c % 64);
    BytesOfJoin(a, b, c);
    assert chunk == if |chunk| == 1 then [a] else if |chunk| == 2 then [a, b] else [a, b, c];
  }

  lemma GroupWasEncoded(s: bytes)
    requires 2 <= |s| <= 4 && Spelled(s) && DecodeGroup(s).Some?
    ensures |DecodeGroup(s).value| == |s| - 1 && Letters(Bits(DecodeGroup(s).value), |s|) == s
  {
    hide Join, Gather, Sextet, Value, Letter;
    var p: int, q: int := Value(s[0]), Value(s[1]);
    var r: int, t: int := if |s| > 2 then Value(s[2]) else 0, if |s| > 3 then Value(s[3]) else 0;
    GatherIsJoin(p, q, r, t);
    BytesOfJoin(p * 4 + q / 16, q % 16 * 16 + r / 4, r % 4 * 64 + t);
    SextetsOfGather(p, q, r, t);
    forall i | 0 <= i < |s| ensures Letters(Bits(DecodeGroup(s).value), |s|)[i] == s[i] {
      ValueIsInvertible(s[i]);
    }
  }

  /** Decoding an encoding gives the bytes back, for every byte string. */
  lemma {:induction false} DecodesBack(data: bytes)
    ensures Decode(Encode(data)) == Some(data)
    decreases |data|
  {
    hide DecodeGroup, Bits;
    var s := Encode(data);
    if data == [] {
    } else if |data| < 3 {
      GroupDecodesBack(data);
    } else {
      var group := Letters(Bits(data[..3]), 4);
      GroupDecodesBack(data[..3]);
      DecodesBack(data[3..]);
      assert s[..4] == group && s[4..] == Encode(data[3..]);
      assert data == data[..3] + data[3..];
    }
  }

  /** Only encodings decode: no other spelling, unused bits included, stands for the bytes. */
  lemma {:induction false} DecodedWasEncoded(s: bytes)
    requires Decode(s).Some?
    ensures Encode(Decode(s).value) == s
  {
    hide DecodeGroup, Bits, Letters;
    if s == [] {
    } else if |s| < 4 {
      GroupWasEncoded(s);
    } else {
      GroupWasEncoded(s[..4]);
      DecodedWasEncoded(s[4..]);
      var front, rest := DecodeGroup(s[..4]).value, Decode(s[4..]).value;
      assert (front + rest)[..3] == front && (front + rest)[3..] == rest;
      assert s == s[..4] + s[4..];
    }
  }

  /** The encoding has the ceiling of four thirds as many letters. */
  lemma {:induction false} EncodedLength(data: bytes)
    ensures |Encode(data)| == (4 * |data| + 2) / 3
    decreases |data|
  {
    if |data| >= 3 { EncodedLength(data[3..]); }
  }
}
