/** What a size line says, against a printer of its own: hexadecimal digits spelled by
    letters, and every error of the decoder by the bytes that cause it. */
module SizeLines {
  import opened Wrappers
  import opened Octets
  import opened Chunked

  const LOWER_DIGITS: string := "0123456789abcdef"
  const UPPER_DIGITS: string := "0123456789ABCDEF"

  /** The letter of a digit, in either case. */
  predicate IsDigitOf(b: byte, v: nat)
    requires v < 16
  {
    b == LOWER_DIGITS[v] as int || b == UPPER_DIGITS[v] as int
  }

  /** The line spells `n` in base 16, in any mix of cases and behind any zeros. */
  predicate Spells(digits: bytes, n: nat) {
    && digits != [] && IsDigitOf(digits[|digits| - 1], n % 16)
    && if |digits| == 1 then n < 16 else Spells(digits[..|digits| - 1], n / 16)
  }

  /** The shortest spelling, in one case. */
  function PrintHex(n: nat, upper: bool): (digits: bytes)
    ensures digits != []
  {
    var letter: byte := (if upper then UPPER_DIGITS[n % 16] else LOWER_DIGITS[n % 16]) as int;
    if n < 16 then [letter] else PrintHex(n / 16, upper) + [letter]
  }

  lemma {:induction false} PrintedSpells(n: nat, upper: bool)
    ensures Spells(PrintHex(n, upper), n)
  {
    if n >= 16 {
      var front := PrintHex(n / 16, upper);
      PrintedSpells(n / 16, upper);
      assert PrintHex(n, upper)[..|front|] == front;
    }
  }

  lemma {:induction false} PaddedSpells(digits: bytes, n: nat)
    requires Spells(digits, n)
    ensures Spells([48] + digits, n)
    decreases |digits|
  {
    var padded := [48] + digits;
    if |digits| == 1 {
      assert padded[..1] == [48];
    } else {
      PaddedSpells(digits[..|digits| - 1], n / 16);
      assert padded[..|padded| - 1] == [48] + digits[..|digits| - 1];
    }
  }

  lemma DigitMeans(b: byte, v: nat)
    requires v < 16
    ensures IsDigitOf(b, v) <==> IsHexDigit(b) && HexValue(b) == v
  {
  }

  /** Spelling is what the digits' number means, both ways. */
  lemma {:induction false} SpellsItsNumber(digits: bytes, n: nat)
    requires digits != []
    ensures Spells(digits, n) <==> (forall i | 0 <= i < |digits| :: IsHexDigit(digits[i])) && HexNumber(digits) == n
    decreases |digits|
  {
    var front, b := digits[..|digits| - 1], digits[|digits| - 1];
    DigitMeans(b, n % 16);
    if |digits| == 1 {
      assert front == [];
    } else {
      SpellsItsNumber(front, n / 16);
      assert forall i | 0 <= i < |front| :: front[i] == digits[i];
      if (forall i | 0 <= i < |digits| :: IsHexDigit(digits[i])) && HexNumber(digits) == n {
        assert HexNumber(front) == n / 16 && HexValue(b) == n % 16;
      }
    }
  }

  lemma SpelledIsValid(digits: bytes, n: nat)
    requires Spells(digits, n) && |digits| <= 16
    ensures ValidDigits(digits) && HexNumber(digits) == n
  {
    SpellsItsNumber(digits, n);
  }

  /** A size line, whatever its case, padding and continuation, parses to its number. */
  lemma SizeLineParses(digits: bytes, n: nat, rest: bytes)
    requires Spells(digits, n) && |digits| <= 16
    ensures ParseChunkSize(digits + [13, 10] + rest) == Complete(|digits| + 2, n)
  {
    hide Spells, HexNumber;
    SpelledIsValid(digits, n);
    ParseSizeLine(digits, rest);
  }

  /** And what parses is a size line of that number. */
  lemma ParsedWasSpelled(raw: bytes, headerLen: nat, n: nat)
    requires ParseChunkSize(raw) == Complete(headerLen, n)
    ensures 3 <= headerLen <= 18 && headerLen <= |raw|
    ensures Spells(raw[..headerLen - 2], n) && raw[headerLen - 2..headerLen] == [13, 10]
  {
    hide Spells, HexNumber, HexRun, ParseChunkSize;
    CompleteIsSizeLine(raw);
    SpellsItsNumber(raw[..headerLen - 2], n);
  }

  // ----- bodies -----

  /** A chunk on the wire whose size line spells the length of its data. */
  predicate IsPrinted(c: Chunk) { |c.digits| <= 16 && c.data != [] && Spells(c.digits, |c.data|) }

  function Printed(chunks: seq<Chunk>): bytes {
    if chunks == [] then []
    else chunks[0].digits + [13, 10] + chunks[0].data + [13, 10] + Printed(chunks[1..])
  }

  function Data(chunks: seq<Chunk>): bytes {
    if chunks == [] then [] else chunks[0].data + Data(chunks[1..])
  }

  lemma {:induction false} PrintedIsFramed(chunks: seq<Chunk>, last: bytes, tail: bytes)
    requires forall i | 0 <= i < |chunks| :: IsPrinted(chunks[i])
    ensures ValidChunks(chunks) && Data(chunks) == Joined(chunks) && Printed(chunks) == FrameChunks(chunks)
    ensures Printed(chunks) + (last + [13, 10] + tail) == Framed(chunks, last, tail)
  {
    hide Spells, HexNumber;
    if chunks != [] {
      PrintedIsFramed(chunks[1..], last, tail);
      SpelledIsValid(chunks[0].digits, |chunks[0].data|);
      assert chunks == [chunks[0]] + chunks[1..];
    } else {
      assert Printed(chunks) + (last + [13, 10] + tail) == last + [13, 10] + tail;
    }
  }

  /** Decoding undoes printing: sizes in base 16, any case, any padding to sixteen digits. */
  lemma PrintedDecodes(chunks: seq<Chunk>, last: bytes, tail: bytes)
    requires forall i | 0 <= i < |chunks| :: IsPrinted(chunks[i])
    requires Spells(last, 0) && |last| <= 16
    requires |Printed(chunks) + (last + [13, 10] + tail)| < 0x1_0000_0000_0000_0000
    ensures DecodeChunked(Printed(chunks) + (last + [13, 10] + tail)) == Ok(Data(chunks))
  {
    hide Spells, HexNumber, Printed, Data, Framed, Joined;
    PrintedIsFramed(chunks, last, tail);
    SpelledIsValid(last, 0);
    DecodeFramed(chunks, last, tail);
  }

  /** Any data can be printed so, each chunk in either case. */
  lemma EveryChunkPrints(data: bytes, upper: bool)
    requires 0 < |data| < 0x1_0000_0000_0000_0000
    ensures IsPrinted(Chunk(PrintHex(|data|, upper), data))
  {
    hide Spells;
    PrintedSpells(|data|, upper);
    SixteenDigits();
    PrintedIsShort(|data|, 16, upper);
  }

  lemma {:induction false} PrintedIsShort(n: nat, digits: nat, upper: bool)
    requires digits > 0 && n < Pow16(digits)
    ensures |PrintHex(n, upper)| <= digits
    decreases digits
  {
    if n >= 16 { PrintedIsShort(n / 16, digits - 1, upper); }
  }

  function Pow16(n: nat): nat { if n == 0 then 1 else 16 * Pow16(n - 1) }

  lemma SixteenDigits()
    ensures Pow16(16) == 0x1_0000_0000_0000_0000
  {
    assert Pow16(4) == 0x1_0000;
    assert Pow16(8) == 0x1_0000 * Pow16(4);
    assert Pow16(12) == 0x1_0000 * Pow16(8);
    assert Pow16(16) == 0x1_0000 * Pow16(12);
  }

  // ----- errors -----

  /** Behind any whole chunks, an error is the error of what follows them. */
  lemma {:induction false} ErrorBehindChunks(chunks: seq<Chunk>, rest: bytes)
    requires forall i | 0 <= i < |chunks| :: IsPrinted(chunks[i])
    requires |Printed(chunks) + rest| < 0x1_0000_0000_0000_0000 && ReadChunk(rest).Refused?
    ensures DecodeChunked(Printed(chunks) + rest) == Err(ReadChunk(rest).error)
  {
    hide Spells, HexNumber, ReadChunk;
    if chunks == [] {
      assert Printed(chunks) + rest == rest;
    } else {
      var c, more := chunks[0], Printed(chunks[1..]) + rest;
      SpelledIsValid(c.digits, |c.data|);
      assert Printed(chunks) + rest == FrameChunk(c) + more;
      ReadFramed(c, more);
      ErrorBehindChunks(chunks[1..], rest);
    }
  }

  /** The input ends inside a size line. */
  lemma EndsInsideLine(digits: bytes, n: nat, k: nat)
    requires Spells(digits, n) && |digits| <= 16 && k < |digits| + 2
    ensures ReadChunk((digits + [13, 10])[..k]) == Refused(EndsInsideHeader)
  {
    hide Spells, HexNumber;
    SpelledIsValid(digits, n);
    TruncatedSizeLine(digits, k);
  }

  /** No digit, too many, or something else than CRLF behind them: the size is refused. */
  lemma SizeIsRefused(raw: bytes, k: nat)
    requires k <= |raw| && (forall i | 0 <= i < k :: IsHexDigit(raw[i]))
    requires k > 16 || (k < |raw| && !IsHexDigit(raw[k]) &&
                        (k == 0 || raw[k] != 13 || (k + 1 < |raw| && raw[k + 1] != 10)))
    ensures ReadChunk(raw) == Refused(SizeNotHexadecimal)
  {
    HexRunReaches(raw, 0, k);
    if k <= 16 { HexRunIs(raw, 0, k); }
  }

  /** Behind a size line of a non-zero size that fits: too little data, no room for the
      terminator, or another one. */
  lemma ChunkIsRefused(digits: bytes, n: nat, rest: bytes)
    requires Spells(digits, n) && |digits| <= 16 && n > 0 && |digits| + 2 + n < 0x1_0000_0000_0000_0000
    ensures |rest| < n ==> ReadChunk(digits + [13, 10] + rest) == Refused(ShorterThanDeclared)
    ensures n <= |rest| < n + 2 ==> ReadChunk(digits + [13, 10] + rest) == Refused(EndsBeforeTerminator)
    ensures n + 2 <= |rest| && rest[n..n + 2] != [13, 10] ==> ReadChunk(digits + [13, 10] + rest) == Refused(NotTerminated)
  {
    hide Spells, ParseChunkSize;
    SizeLineParses(digits, n, rest);
    var raw, h := digits + [13, 10] + rest, |digits| + 2;
    if n + 2 <= |rest| { assert raw[h + n..h + n + 2] == rest[n..n + 2]; }
  }

  /** A size whose chunk would end past the machine's largest offset overflows. */
  lemma LengthIsRefused(digits: bytes, n: nat, rest: bytes)
    requires Spells(digits, n) && |digits| <= 16 && |digits| + 2 + n >= 0x1_0000_0000_0000_0000
    ensures ReadChunk(digits + [13, 10] + rest) == Refused(LengthOverflows)
  {
    hide Spells, ParseChunkSize;
    SizeLineParses(digits, n, rest);
  }
}
