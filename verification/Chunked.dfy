/** Chunked transfer coding, section 7.1 of RFC 9112: the decoder of
    `decode_chunked_body`, and the framing it undoes. */
module Chunked {
  import opened Wrappers
  import opened Octets

  // A 64-bit machine: the width of `usize`, and of the size `httparse` returns.
  const USIZE_LIMIT: nat := 0x1_0000_0000_0000_0000

  datatype ChunkError =
    | EndsInsideHeader
    | SizeNotHexadecimal
    | LengthOverflows
    | ShorterThanDeclared
    | EndsBeforeTerminator
    | NotTerminated

  // ----- the size line -----

  datatype SizeStatus = Complete(headerLen: nat, size: nat) | Partial | Invalid

  function HexNumber(digits: bytes): (v: nat)
    requires forall i | 0 <= i < |digits| :: IsHexDigit(digits[i])
  {
    if digits == [] then 0 else 16 * HexNumber(digits[..|digits| - 1]) + HexValue(digits[|digits| - 1])
  }

  function HexRun(raw: bytes, from: nat): (end: nat)
    requires from <= |raw|
    ensures from <= end <= |raw|
    ensures forall i | from <= i < end :: IsHexDigit(raw[i])
    ensures end < |raw| ==> !IsHexDigit(raw[end])
    decreases |raw| - from
  {
    if from < |raw| && IsHexDigit(raw[from]) then HexRun(raw, from + 1) else from
  }

  /** `httparse::parse_chunk_size` on a size line without extensions: one to
      sixteen hexadecimal digits and CRLF, `Partial` while the line could still
      become one. */
  function ParseChunkSize(raw: bytes): SizeStatus {
    var n := HexRun(raw, 0);
    if n > 16 then Invalid
    else if n == |raw| then Partial
    else if n == 0 || raw[n] != CR then Invalid
    else if n + 1 == |raw| then Partial
    else if raw[n + 1] != LF then Invalid
    else Complete(n + 2, HexNumber(raw[..n]))
  }

  // ----- the decoder -----

  type Decoded = Result<bytes, ChunkError>

  /** A decoding with `front` already read before it. */
  function Prepend(front: bytes, r: Decoded): Decoded {
    match r
    case Ok(out) => Ok(front + out)
    case Err(e) => Err(e)
  }

  /** One turn of the loop: the body ends, the framing is refused, or a chunk is
      read and strictly less is left. */
  datatype Turn = Ends | Refused(error: ChunkError) | Reads(chunk: bytes, rest: bytes)

  function ReadChunk(rest: bytes): (t: Turn)
    ensures t.Reads? ==> |t.chunk| + |t.rest| < |rest|
  {
    match ParseChunkSize(rest)
    case Partial => Refused(EndsInsideHeader)
    case Invalid => Refused(SizeNotHexadecimal)
    case Complete(headerLen, size) =>
      if size == 0 then Ends
      else if headerLen + size >= USIZE_LIMIT then Refused(LengthOverflows)
      else if headerLen + size > |rest| then Refused(ShorterThanDeclared)
      else if headerLen + size + 2 > |rest| then Refused(EndsBeforeTerminator)
      else if rest[headerLen + size..headerLen + size + 2] != CRLF then Refused(NotTerminated)
      else Reads(rest[headerLen..headerLen + size], rest[headerLen + size + 2..])
  }

  /** What `decode_chunked_body` returns. */
  function DecodeChunked(raw: bytes): (r: Decoded)
    decreases |raw|
  {
    match ReadChunk(raw)
    case Ends => Ok([])
    case Refused(e) => Err(e)
    case Reads(chunk, rest) => Prepend(chunk, DecodeChunked(rest))
  }

  lemma PrependNothing(r: Decoded)
    ensures Prepend([], r) == r
  {
    if r.Ok? { assert [] + r.value == r.value; }
  }

  lemma PrependTwice(a: bytes, b: bytes, r: Decoded)
    ensures Prepend(a, Prepend(b, r)) == Prepend(a + b, r)
  {
    if r.Ok? { assert a + (b + r.value) == a + b + r.value; }
  }

  method DecodeChunkedBody(raw: bytes) returns (r: Decoded)
    ensures r == DecodeChunked(raw)
  {
    hide HexNumber, HexRun, ParseChunkSize;
    var out: bytes := [];
    var rest := raw;
    PrependNothing(DecodeChunked(raw));
    while true
      invariant DecodeChunked(raw) == Prepend(out, DecodeChunked(rest))
      decreases |rest|
    {
      match ParseChunkSize(rest) {
        case Partial => return Err(EndsInsideHeader);
        case Invalid => return Err(SizeNotHexadecimal);
        case Complete(headerLen, size) =>
          if size == 0 {
            assert out + [] == out;
            return Ok(out);
          }
          if headerLen + size >= USIZE_LIMIT {
            return Err(LengthOverflows);
          }
          var bodyEnd := headerLen + size;
          if bodyEnd > |rest| {
            return Err(ShorterThanDeclared);
          }
          var chunk := rest[headerLen..bodyEnd];
          ghost var before := out;
          out := out + chunk;
          if bodyEnd + 2 > |rest| {
            return Err(EndsBeforeTerminator);
          }
          if rest[bodyEnd..bodyEnd + 2] != CRLF {
            return Err(NotTerminated);
          }
          assert ReadChunk(rest) == Reads(chunk, rest[bodyEnd + 2..]);
          rest := rest[bodyEnd + 2..];
          PrependTwice(before, chunk, DecodeChunked(rest));
      }
    }
  }

  // ----- the framing -----

  /** One chunk: its size line's digits, leading zeros and either case allowed, and its data. */
  datatype Chunk = Chunk(digits: bytes, data: bytes)

  predicate ValidDigits(digits: bytes) {
    1 <= |digits| <= 16 && forall i | 0 <= i < |digits| :: IsHexDigit(digits[i])
  }

  predicate ValidChunk(c: Chunk) {
    ValidDigits(c.digits) && HexNumber(c.digits) == |c.data| > 0
  }

  predicate ValidChunks(chunks: seq<Chunk>) {
    forall i | 0 <= i < |chunks| :: ValidChunk(chunks[i])
  }

  /** The digits of the last chunk's size line: a zero, however many times it is written. */
  predicate ValidLast(last: bytes) { ValidDigits(last) && HexNumber(last) == 0 }

  function FrameChunk(c: Chunk): bytes { c.digits + CRLF + c.data + CRLF }

  /** The chunks on the wire, before the last chunk's size line. */
  function FrameChunks(chunks: seq<Chunk>): bytes {
    if chunks == [] then [] else FrameChunk(chunks[0]) + FrameChunks(chunks[1..])
  }

  /** A whole chunked body: the chunks, the last chunk's size line, and whatever follows. */
  function Framed(chunks: seq<Chunk>, last: bytes, tail: bytes): bytes {
    if chunks == [] then last + CRLF + tail
    else FrameChunk(chunks[0]) + Framed(chunks[1..], last, tail)
  }

  /** What the framing carries. */
  function Joined(chunks: seq<Chunk>): bytes {
    if chunks == [] then [] else chunks[0].data + Joined(chunks[1..])
  }

  // ----- the size line parses back -----

  lemma HexRunIs(raw: bytes, from: nat, end: nat)
    requires from <= end <= |raw|
    requires forall i | from <= i < end :: IsHexDigit(raw[i])
    requires end < |raw| ==> !IsHexDigit(raw[end])
    ensures HexRun(raw, from) == end
    decreases end - from
  {
    if from < end { HexRunIs(raw, from + 1, end); }
  }

  lemma HexRunReaches(raw: bytes, from: nat, end: nat)
    requires from <= end <= |raw|
    requires forall i | from <= i < end :: IsHexDigit(raw[i])
    ensures HexRun(raw, from) >= end
    decreases end - from
  {
    if from < end { HexRunReaches(raw, from + 1, end); }
  }

  /** A complete size line parses to its own length and value, whatever follows it. */
  lemma ParseSizeLine(digits: bytes, rest: bytes)
    requires ValidDigits(digits)
    ensures ParseChunkSize(digits + CRLF + rest) == Complete(|digits| + 2, HexNumber(digits))
  {
    var raw := digits + CRLF + rest;
    HexRunIs(raw, 0, |digits|);
    assert raw[..|digits|] == digits;
  }

  /** Conversely a completed parse read exactly such a line. */
  lemma CompleteIsSizeLine(raw: bytes)
    requires ParseChunkSize(raw).Complete?
    ensures var n := ParseChunkSize(raw).headerLen;
            2 < n <= |raw| && ValidDigits(raw[..n - 2]) && raw[n - 2..n] == CRLF &&
            ParseChunkSize(raw).size == HexNumber(raw[..n - 2])
  {
  }

  /** Prefix stability: more input never changes a verdict other than `Partial`. */
  lemma ParseIsPrefixStable(raw: bytes, more: bytes)
    requires !ParseChunkSize(raw).Partial?
    ensures ParseChunkSize(raw + more) == ParseChunkSize(raw)
  {
    var n := HexRun(raw, 0);
    var whole := raw + more;
    if n < |raw| {
      HexRunIs(whole, 0, n);
      assert whole[..n] == raw[..n];
    } else {
      HexRunReaches(whole, 0, n);
    }
  }

  /** Truncation: every strict prefix of a complete size line is `Partial`. */
  lemma TruncatedSizeLine(digits: bytes, n: nat)
    requires ValidDigits(digits) && n < |digits| + 2
    ensures ParseChunkSize((digits + CRLF)[..n]).Partial?
  {
    var cut := (digits + CRLF)[..n];
    HexRunIs(cut, 0, if n < |digits| then n else |digits|);
  }

  // ----- decoding undoes framing, and only framing -----

  lemma FramedParts(c: Chunk, rest: bytes)
    ensures var raw, h := FrameChunk(c) + rest, |c.digits| + 2;
            raw == c.digits + CRLF + (c.data + CRLF + rest) && |raw| == h + |c.data| + 2 + |rest| &&
            raw[h..h + |c.data|] == c.data && raw[h + |c.data|..h + |c.data| + 2] == CRLF &&
            raw[h + |c.data| + 2..] == rest
  {
    var raw, h := FrameChunk(c) + rest, |c.digits| + 2;
    assert raw == (c.digits + CRLF) + c.data + CRLF + rest;
  }

  lemma ReadFramed(c: Chunk, rest: bytes)
    requires ValidChunk(c) && |FrameChunk(c) + rest| < USIZE_LIMIT
    ensures ReadChunk(FrameChunk(c) + rest) == Reads(c.data, rest)
  {
    hide HexNumber, HexRun, ParseChunkSize;
    FramedParts(c, rest);
    ParseSizeLine(c.digits, c.data + CRLF + rest);
  }

  /** Decoding undoes framing, for every list of non-empty chunks and any tail. */
  lemma {:induction false} DecodeFramed(chunks: seq<Chunk>, last: bytes, tail: bytes)
    requires ValidChunks(chunks) && ValidLast(last) && |Framed(chunks, last, tail)| < USIZE_LIMIT
    ensures DecodeChunked(Framed(chunks, last, tail)) == Ok(Joined(chunks))
  {
    if chunks == [] {
      ParseSizeLine(last, tail);
    } else {
      DecodeFramed(chunks[1..], last, tail);
      ReadFramed(chunks[0], Framed(chunks[1..], last, tail));
    }
  }

  lemma FramedCons(c: Chunk, more: seq<Chunk>, last: bytes, tail: bytes)
    ensures Framed([c] + more, last, tail) == FrameChunk(c) + Framed(more, last, tail)
    ensures Joined([c] + more) == c.data + Joined(more)
    ensures ValidChunk(c) && ValidChunks(more) ==> ValidChunks([c] + more)
  {
    assert ([c] + more)[1..] == more;
  }

  /** A turn that reads, read one valid chunk off the front. */
  lemma ChunkRead(raw: bytes) returns (c: Chunk, rest: bytes)
    requires ReadChunk(raw).Reads?
    ensures ValidChunk(c) && raw == FrameChunk(c) + rest && ReadChunk(raw) == Reads(c.data, rest)
  {
    hide HexNumber, HexRun, ParseChunkSize;
    CompleteIsSizeLine(raw);
    var n, size := ParseChunkSize(raw).headerLen, ParseChunkSize(raw).size;
    c, rest := Chunk(raw[..n - 2], raw[n..n + size]), raw[n + size + 2..];
    assert raw == raw[..n - 2] + raw[n - 2..n] + raw[n..n + size] + raw[n + size..n + size + 2] + rest;
  }

  /** Whatever decodes was framed: the chunks the decoder read, recovered. */
  lemma {:induction false} DecodedWasFramed(raw: bytes)
    returns (chunks: seq<Chunk>, last: bytes, tail: bytes)
    requires DecodeChunked(raw).Ok?
    ensures ValidChunks(chunks) && ValidLast(last)
    ensures raw == Framed(chunks, last, tail) && DecodeChunked(raw) == Ok(Joined(chunks))
    decreases |raw|
  {
    CompleteIsSizeLine(raw);
    var n, size := ParseChunkSize(raw).headerLen, ParseChunkSize(raw).size;
    if size == 0 {
      chunks, last, tail := [], raw[..n - 2], raw[n..];
      assert raw == raw[..n - 2] + raw[n - 2..n] + raw[n..];
    } else {
      var c, rest := ChunkRead(raw);
      var more;
      more, last, tail := DecodedWasFramed(rest);
      chunks := [c] + more;
      FramedCons(c, more, last, tail);
    }
  }

  /** `raw` carries `out`: some framing of valid chunks is `raw`, and joins to `out`. */
  ghost predicate Carries(raw: bytes, out: bytes) {
    exists chunks, last, tail ::
      ValidChunks(chunks) && ValidLast(last) && raw == Framed(chunks, last, tail) && out == Joined(chunks)
  }

  /** Decoding is exact. `USIZE_LIMIT` bounds every slice of the machine. */
  lemma DecodeIsExact(raw: bytes, out: bytes)
    requires |raw| < USIZE_LIMIT
    ensures DecodeChunked(raw) == Ok(out) <==> Carries(raw, out)
  {
    if DecodeChunked(raw) == Ok(out) {
      var chunks, last, tail := DecodedWasFramed(raw);
    }
    if Carries(raw, out) {
      var chunks, last, tail :|
        ValidChunks(chunks) && ValidLast(last) && raw == Framed(chunks, last, tail) && out == Joined(chunks);
      DecodeFramed(chunks, last, tail);
    }
  }

  /** No truncation passes for a shorter body: cut anywhere before the last
      chunk's size line is complete, the framing is an error. */
  lemma {:induction false} TruncatedFramingFails(chunks: seq<Chunk>, last: bytes, tail: bytes, n: nat)
    requires ValidChunks(chunks) && ValidLast(last)
    requires n < |FrameChunks(chunks)| + |last| + 2 && |Framed(chunks, last, tail)| < USIZE_LIMIT
    ensures n <= |Framed(chunks, last, tail)|
    ensures DecodeChunked(Framed(chunks, last, tail)[..n]).Err?
  {
    var raw := Framed(chunks, last, tail);
    FramedSplits(chunks, last, tail);
    if chunks == [] {
      assert raw[..n] == (last + CRLF)[..n];
      TruncatedSizeLine(last, n);
    } else {
      var c, rest := chunks[0], Framed(chunks[1..], last, tail);
      if n < |FrameChunk(c)| {
        assert raw[..n] == FrameChunk(c)[..n];
        TruncatedChunkFails(c, n);
      } else {
        var m := n - |FrameChunk(c)|;
        assert raw[..n] == FrameChunk(c) + rest[..m];
        TruncatedFramingFails(chunks[1..], last, tail, m);
        ReadFramed(c, rest[..m]);
      }
    }
  }

  lemma TruncatedChunkFails(c: Chunk, n: nat)
    requires ValidChunk(c) && n < |FrameChunk(c)| < USIZE_LIMIT
    ensures DecodeChunked(FrameChunk(c)[..n]).Err?
  {
    var h := |c.digits| + 2;
    var cut := FrameChunk(c)[..n];
    if n < h {
      assert cut == (c.digits + CRLF)[..n];
      TruncatedSizeLine(c.digits, n);
    } else {
      assert FrameChunk(c) == c.digits + CRLF + (c.data + CRLF);
      assert cut == c.digits + CRLF + (c.data + CRLF)[..n - h];
      ParseSizeLine(c.digits, (c.data + CRLF)[..n - h]);
    }
  }

  lemma {:induction false} FramedSplits(chunks: seq<Chunk>, last: bytes, tail: bytes)
    ensures Framed(chunks, last, tail) == FrameChunks(chunks) + (last + CRLF + tail)
  {
    if chunks == [] {
    } else {
      FramedSplits(chunks[1..], last, tail);
    }
  }
}
