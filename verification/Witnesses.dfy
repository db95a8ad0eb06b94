/** Concrete sessions that show the hypotheses of the main results are needed. */
module Witnesses {
  import opened Wrappers
  import opened Octets
  import opened Chunked
  import opened Offsets
  import opened JsonScan
  import opened Response
  import opened Ranges
  import opened Layouts
  import opened Ceremony
  import opened Contiguity
  import opened Head

  const A: bytes := [97]

  // ----- printed responses -----

  /** A response of one header that serves these chunks. */
  function Served(chunks: seq<Chunk>): bytes {
    Message([], [Header(TRANSFER_ENCODING, CHUNKED)], Framed(chunks, [48], CRLF))
  }

  // Where its body starts.
  const BODY_AT: nat := 32

  lemma ServedIsChunked(chunks: seq<Chunk>)
    requires ValidChunks(chunks) && |Framed(chunks, [48], CRLF)| < 100
    ensures ChunkedResponse(Served(chunks), BODY_AT, chunks, [48], CRLF)
  {
    hide Framed, ChunkedResponse, ValidChunk;
    var headers := [Header(TRANSFER_ENCODING, CHUNKED)];
    OneDigit(48);
    OneHeader(headers[0], Framed(chunks, [48], CRLF));
    assert CHUNKED[0..] == CHUNKED;
    FindFromIs(CHUNKED, CHUNKED, 0, 0);
    PrintedChunkedResponse([], headers, chunks, [48], CRLF);
  }

  lemma OneHeader(h: Header, body: bytes)
    ensures |Message([], [h], body)| == |h.name| + |h.value| + 8 + |body|
    ensures FirstHeader([h], h.name) == Some(0)
  {
    assert [h][1..] == [];
    assert Lines([h], body) == CRLF + h.name + SEPARATOR + h.value + Lines([], body);
    assert |Lines([], body)| == 4 + |body|;
    EqualIgnoresCase(h.name);
  }

  lemma EqualIgnoresCase(a: bytes)
    ensures EqIgnoreCase(a, a)
  {
  }

  lemma MemberServed(chunks: seq<Chunk>, m: JsonMember)
    requires ValidChunks(chunks) && |Framed(chunks, [48], CRLF)| < 100
    requires Contiguous(Framed(chunks, [48], CRLF), Joined(chunks), A) == Some(m)
    ensures InResponse(Served(chunks), A) == Some(ShiftMember(m, BODY_AT))
  {
    hide Framed, Joined, Served, Contiguous, IsChunked, FindResponseBodyRange, ExtractResponseBody, ValidChunk;
    ServedIsChunked(chunks);
    ChunkedBody(Served(chunks), BODY_AT, chunks, [48], CRLF);
  }

  lemma NumberServed(chunks: seq<Chunk>, r: Range)
    requires ValidChunks(chunks) && |Framed(chunks, [48], CRLF)| < 100
    requires ContiguousBare(Framed(chunks, [48], CRLF), Joined(chunks), A) == Some(r)
    ensures ComputeIdSnippetRange(Served(chunks), A, false) == Some(Shift(r, BODY_AT))
  {
    hide Framed, Joined, Served, ContiguousBare, IsChunked, FindResponseBodyRange, ExtractResponseBody, ValidChunk;
    ServedIsChunked(chunks);
    ChunkedBody(Served(chunks), BODY_AT, chunks, [48], CRLF);
  }

  ghost predicate NeverInOnePiece(recv: bytes, at: nat, chunks: seq<Chunk>, r: Range) {
    forall d: nat :: !SentInOnePiece(recv, at, chunks, d, r)
  }

  /** A range that opens in the second of three chunks and is longer than what is left of
      it was not sent in one piece. */
  lemma OverTheSeam(recv: bytes, at: nat, c: Chunk, d: Chunk, e: Chunk, x: nat, r: Range)
    requires x < |d.data| < x + (r.end - r.start) && r.start == at + |FrameChunk(c)| + |d.digits| + 2 + x
    ensures NeverInOnePiece(recv, at, [c, d, e], r)
  {
    hide FrameChunk, Image, Joined, ChunkEnd;
    var chunks, y := [c, d, e], |c.data| + x;
    SecondChunk(c, d, e, x);
    forall i: nat ensures !SentInOnePiece(recv, at, chunks, i, r) {
      if SentInOnePiece(recv, at, chunks, i, r) {
        SentIsOnePiece(recv, at, chunks, i, r);
        if i < y { ImageIncreases(chunks, i, y); }
        if y < i { ImageIncreases(chunks, y, i); }
      }
    }
  }

  lemma SecondChunk(c: Chunk, d: Chunk, e: Chunk, x: nat)
    requires x < |d.data|
    ensures var chunks, y := [c, d, e], |c.data| + x;
            && y < |Joined(chunks)| && Image(chunks, y) == |FrameChunk(c)| + |d.digits| + 2 + x
            && ChunkEnd(chunks, y) == |c.data| + |d.data|
  {
    hide FrameChunk;
    assert [c, d, e][1..] == [d, e];
    assert Joined([d, e]) == d.data + Joined([d, e][1..]);
    assert Image([d, e], x) == |d.digits| + 2 + x;
  }

  // ----- members that framing runs through, and past -----

  // `"a` and `":"x","a":"x"`.
  const OPENING: Chunk := Chunk([50], [34, 97])
  const REST: Chunk := Chunk([68], [34, 58, 34, 120, 34, 44, 34, 97, 34, 58, 34, 120, 34])

  /** A split first member is passed over for an identical second one that is whole:
      framing can move the result, which is why soundness names the bytes of the
      first member and not its place. */
  lemma SplitFirstMemberIsPassedOver()
    ensures var raw, decoded := Framed([OPENING, REST], [48], CRLF), Joined([OPENING, REST]);
            && InBody(decoded, A) == Some(JsonMember(Range(0, 7), Range(5, 6)))
            && Contiguous(raw, decoded, A) == Some(JsonMember(Range(16, 23), Range(21, 22)))
    ensures var at := BODY_AT;
            && ChunkedResponse(Served([OPENING, REST]), at, [OPENING, REST], [48], CRLF)
            && InResponse(Served([OPENING, REST]), A) == Some(JsonMember(Range(at + 16, at + 23), Range(at + 21, at + 22)))
  {
    hide Framed, Joined, InBody, Contiguous, Served, ChunkedResponse, InResponse;
    OneDigit(50);
    OneDigit(68);
    OneDigit(48);
    TwoChunks(OPENING, REST, [48], CRLF);
    assert FrameChunk(OPENING) == [50, CR, LF, 34, 97, CR, LF];
    assert FrameChunk(REST) == [68, CR, LF, 34, 58, 34, 120, 34, 44, 34, 97, 34, 58, 34, 120, 34, CR, LF];
    PassedOver(Joined([OPENING, REST]), Framed([OPENING, REST], [48], CRLF));
    ServedIsChunked([OPENING, REST]);
    MemberServed([OPENING, REST], JsonMember(Range(16, 23), Range(21, 22)));
  }

  lemma PassedOver(decoded: bytes, raw: bytes)
    requires decoded == [34, 97] + [34, 58, 34, 120, 34, 44, 34, 97, 34, 58, 34, 120, 34]
    requires raw == [50, CR, LF, 34, 97, CR, LF]
                    + ([68, CR, LF, 34, 58, 34, 120, 34, 44, 34, 97, 34, 58, 34, 120, 34, CR, LF] + ([48] + CRLF + CRLF))
    ensures InBody(decoded, A) == Some(JsonMember(Range(0, 7), Range(5, 6)))
    ensures Contiguous(raw, decoded, A) == Some(JsonMember(Range(16, 23), Range(21, 22)))
  {
    hide InBody;
    MemberA(decoded, 0, 6);
    MemberA(raw, 16, 22);
    assert raw[16..23] == decoded[0..7];
  }

  // `"a`, then `":"\r\n2\r\n","a":"`, then `",`.
  const MIMIC: Chunk := Chunk([70], [34, 58, 34, CR, LF, 50, CR, LF, 34, 44, 34, 97, 34, 58, 34])
  const LAST: Chunk := Chunk([50], [34, 44])

  /** A first value that spells the framing, raw CR and all, lets a later member through
      with the framing itself -- a terminator, a size line and its end -- for its value:
      a whole response whose returned member was not sent in one piece. */
  lemma RawCrHidesFraming()
    ensures var chunks := [OPENING, MIMIC, LAST];
            var recv, at := Served(chunks), BODY_AT;
            && ChunkedResponse(recv, at, chunks, [48], CRLF)
            && InBody(Joined(chunks), A) == Some(JsonMember(Range(0, 11), Range(5, 10)))
            && InResponse(recv, A) == Some(JsonMember(Range(at + 20, at + 31), Range(at + 25, at + 30)))
            && NeverInOnePiece(recv, at, chunks, Range(at + 20, at + 31))
  {
    hide Framed, Joined, InBody, Contiguous, Served, ChunkedResponse, InResponse, NeverInOnePiece;
    OneDigit(50);
    OneDigit(70);
    OneDigit(48);
    ThreeChunks(OPENING, MIMIC, LAST, [48], CRLF);
    assert FrameChunk(OPENING) == [50, CR, LF, 34, 97, CR, LF];
    assert FrameChunk(MIMIC) ==
           [70, CR, LF, 34, 58, 34, CR, LF, 50, CR, LF, 34, 44, 34, 97, 34, 58, 34, CR, LF];
    assert FrameChunk(LAST) == [50, CR, LF, 34, 44, CR, LF];
    var chunks := [OPENING, MIMIC, LAST];
    LetThrough(Joined(chunks), Framed(chunks, [48], CRLF));
    ServedIsChunked(chunks);
    MemberServed(chunks, JsonMember(Range(20, 31), Range(25, 30)));
    OverTheSeam(Served(chunks), BODY_AT, OPENING, MIMIC, LAST, 10, Range(BODY_AT + 20, BODY_AT + 31));
  }

  lemma LetThrough(decoded: bytes, raw: bytes)
    requires decoded == [34, 97] + ([34, 58, 34, CR, LF, 50, CR, LF, 34, 44, 34, 97, 34, 58, 34] + [34, 44])
    requires raw == [50, CR, LF, 34, 97, CR, LF]
                    + ([70, CR, LF, 34, 58, 34, CR, LF, 50, CR, LF, 34, 44, 34, 97, 34, 58, 34, CR, LF]
                       + ([50, CR, LF, 34, 44, CR, LF] + ([48] + CRLF + CRLF)))
    ensures InBody(decoded, A) == Some(JsonMember(Range(0, 11), Range(5, 10)))
    ensures Contiguous(raw, decoded, A) == Some(JsonMember(Range(20, 31), Range(25, 30)))
  {
    hide InBody;
    MemberA(decoded, 0, 10);
    MemberA(raw, 20, 30);
    assert raw[20..31] == decoded[0..11];
  }

  lemma ThreeChunks(c: Chunk, d: Chunk, e: Chunk, last: bytes, tail: bytes)
    ensures Joined([c, d, e]) == c.data + (d.data + e.data)
    ensures Framed([c, d, e], last, tail) == FrameChunk(c) + (FrameChunk(d) + (FrameChunk(e) + (last + CRLF + tail)))
  {
    assert [c, d, e][1..] == [d, e];
    TwoChunks(d, e, last, tail);
  }

  lemma OneDigit(b: byte)
    requires IsHexDigit(b)
    ensures ValidDigits([b]) && HexNumber([b]) == HexValue(b)
  {
    assert HexNumber([b][..0]) == 0;
  }

  lemma TwoChunks(c: Chunk, d: Chunk, last: bytes, tail: bytes)
    ensures Joined([c, d]) == c.data + d.data
    ensures Framed([c, d], last, tail) == FrameChunk(c) + (FrameChunk(d) + (last + CRLF + tail))
  {
    assert [c, d][1..] == [d] && [d][1..] == [];
    assert Joined([d]) == d.data + Joined([]);
    assert Framed([d], last, tail) == FrameChunk(d) + Framed([], last, tail);
  }

  // The compact member at `at`, and its name nowhere earlier.
  lemma MemberAt(body: bytes, field: bytes, at: nat, close: nat)
    requires at + |field| + 4 <= close < |body|
    requires OccursAt(body, Key(field) + [COLON, QUOTE], at)
    requires forall i: nat | i < at :: !OccursAt(body, Key(field), i)
    requires body[close] == QUOTE && forall i | at + |field| + 4 <= i < close :: body[i] != QUOTE
    ensures InBody(body, field) == Some(JsonMember(Range(at, close + 1), Range(at + |field| + 4, close)))
  {
    hide FirstMatch, OccursAt, Key;
    KeyAndDelimiter(body, Key(field), at);
    SkipWsIs(body, at + |field| + 2, at + |field| + 2);
    SkipWsIs(body, at + |field| + 3, at + |field| + 3);
    FirstMatchIs(body, field, true, 0, at);
    FindByteIs(body, QUOTE, at + |field| + 4, close);
  }

  lemma KeyAndDelimiter(body: bytes, key: bytes, at: nat)
    requires OccursAt(body, key + [COLON, QUOTE], at)
    ensures OccursAt(body, key, at) && at + |key| + 1 < |body|
    ensures body[at + |key|] == COLON && body[at + |key| + 1] == QUOTE
  {
    var k, n := key + [COLON, QUOTE], |key|;
    assert k[n] == COLON && k[n + 1] == QUOTE;
    forall x | at <= x < at + n ensures body[x] == key[x - at] { assert body[x] == k[x - at]; }
  }

  lemma KeyOpens(body: bytes, field: bytes, i: nat)
    requires OccursAt(body, Key(field), i) && field != []
    ensures i + 1 < |body| && body[i] == QUOTE && body[i + 1] == field[0]
  {
    assert Key(field)[0] == QUOTE && Key(field)[1] == field[0];
  }

  // The three bytes of `"a"`, or their absence.
  lemma NamedA(body: bytes, i: nat)
    ensures OccursAt(body, Key(A), i) <==> i + 3 <= |body| && body[i] == 34 && body[i + 1] == 97 && body[i + 2] == 34
  {
    var key := Key(A);
    assert key[0] == 34 && key[1] == 97 && key[2] == 34;
  }

  lemma MemberA(body: bytes, at: nat, close: nat)
    requires at + 5 <= close < |body|
    requires body[at] == 34 && body[at + 1] == 97 && body[at + 2] == 34 && body[at + 3] == 58 && body[at + 4] == 34
    requires forall i | 0 <= i < at :: body[i] != 34 || body[i + 1] != 97 || body[i + 2] != 34
    requires body[close] == 34 && forall i | at + 5 <= i < close :: body[i] != 34
    ensures InBody(body, A) == Some(JsonMember(Range(at, close + 1), Range(at + 5, close)))
  {
    hide OccursAt, InBody;
    assert OccursAt(body, Key(A) + [COLON, QUOTE], at) by { FiveBytes(body, at); }
    forall i: nat | i < at ensures !OccursAt(body, Key(A), i) { NamedA(body, i); }
    MemberAt(body, A, at, close);
  }

  lemma FiveBytes(body: bytes, at: nat)
    requires at + 5 <= |body|
    requires body[at] == 34 && body[at + 1] == 97 && body[at + 2] == 34 && body[at + 3] == 58 && body[at + 4] == 34
    ensures OccursAt(body, Key(A) + [COLON, QUOTE], at)
  {
    assert Key(A) + [COLON, QUOTE] == [34, 97, 34, 58, 34];
  }

  // ----- a number that is a size line -----

  // `"a`, then `":\r\n2\r\n,"a":`, then `,}`.
  const NAMELESS: Chunk := Chunk([67], [34, 58, CR, LF, 50, CR, LF, 44, 34, 97, 34, 58])
  const CLOSING: Chunk := Chunk([50], [44, 125])

  /** A name left without a value, before a chunk's end: the size line of the next chunk
      passes for its number, in a whole response. */
  lemma SizeLinePassesForNumber()
    ensures var chunks := [OPENING, NAMELESS, CLOSING];
            var recv, at := Served(chunks), BODY_AT;
            && ChunkedResponse(recv, at, chunks, [48], CRLF)
            && BareSnippet(Joined(chunks), A) == Some(Range(0, 10))
            && ComputeIdSnippetRange(recv, A, false) == Some(Range(at + 18, at + 28))
            && NeverInOnePiece(recv, at, chunks, Range(at + 18, at + 28))
  {
    hide Framed, Joined, BareSnippet, ContiguousBare, Served, ChunkedResponse, ComputeIdSnippetRange, NeverInOnePiece;
    OneDigit(50);
    OneDigit(67);
    OneDigit(48);
    ThreeChunks(OPENING, NAMELESS, CLOSING, [48], CRLF);
    assert FrameChunk(OPENING) == [50, CR, LF, 34, 97, CR, LF];
    assert FrameChunk(NAMELESS) == [67, CR, LF, 34, 58, CR, LF, 50, CR, LF, 44, 34, 97, 34, 58, CR, LF];
    assert FrameChunk(CLOSING) == [50, CR, LF, 44, 125, CR, LF];
    var chunks := [OPENING, NAMELESS, CLOSING];
    NumberLetThrough(Joined(chunks), Framed(chunks, [48], CRLF));
    ServedIsChunked(chunks);
    NumberServed(chunks, Range(18, 28));
    OverTheSeam(Served(chunks), BODY_AT, OPENING, NAMELESS, CLOSING, 8, Range(BODY_AT + 18, BODY_AT + 28));
  }

  lemma NumberLetThrough(decoded: bytes, raw: bytes)
    requires decoded == [34, 97] + ([34, 58, CR, LF, 50, CR, LF, 44, 34, 97, 34, 58] + [44, 125])
    requires raw == [50, CR, LF, 34, 97, CR, LF]
                    + ([67, CR, LF, 34, 58, CR, LF, 50, CR, LF, 44, 34, 97, 34, 58, CR, LF]
                       + ([50, CR, LF, 44, 125, CR, LF] + ([48] + CRLF + CRLF)))
    ensures BareSnippet(decoded, A) == Some(Range(0, 10))
    ensures ContiguousBare(raw, decoded, A) == Some(Range(18, 28))
  {
    hide BareSnippet;
    NumberA(decoded, 0);
    NumberA(raw, 18);
    assert raw[18..28] == decoded[0..10];
  }

  // `"a":\r\n2\r\n,` at `at`, and its name nowhere earlier.
  lemma NumberA(body: bytes, at: nat)
    requires at + 10 <= |body| && body[at] == 34 && body[at + 1] == 97 && body[at + 2] == 34 && body[at + 3] == 58
    requires body[at + 4] == CR && body[at + 5] == LF && body[at + 6] == 50 && body[at + 7] == CR && body[at + 8] == LF
    requires body[at + 9] == COMMA
    requires forall i | 0 <= i < at :: body[i] != 34 || body[i + 1] != 97 || body[i + 2] != 34
    ensures BareSnippet(body, A) == Some(Range(at, at + 10))
  {
    hide FirstMatch, OccursAt, SkipWs;
    forall i: nat | i <= at ensures OccursAt(body, Key(A), i) <==> i == at { NamedA(body, i); }
    SkipWsIs(body, at + 3, at + 3);
    SkipWsIs(body, at + 4, at + 6);
    SkipWsIs(body, at + 7, at + 9);
    FirstMatchIs(body, A, false, 0, at);
    assert DigitRun(body, at + 6) == at + 7;
  }

  // ----- reveals that overlap -----

  const ID: bytes := [105, 100]
  const LOGIN: bytes := [108, 111, 103, 105, 110]

  // An empty head, and `"id":"login":"x"` for a body: no JSON text.
  const OVERLAPPING: bytes :=
    HEAD_END + [34, 105, 100, 34, 58, 34, 108, 111, 103, 105, 110, 34, 58, 34, 120, 34]

  /** Without the condition on what follows a member's closing quote the two reveals
      can overlap: here the debug assertion would fire, and the layout is no partition. */
  lemma RevealsCanOverlap()
    ensures var r := IdentityResponse(OVERLAPPING, IdentitySession(ID, JsonString, LOGIN));
            && r == Ok(RevealingLayout([Range(4, 16), Range(9, 20)], 20))
            && !NoOverlap(r.value.revealed)
            && !Partitions(r.value.revealed + r.value.committed, 20)
  {
    hide Partitions, RevealingLayout, InResponse, NoOverlap;
    MemberOfOverlapping();
    OverlappingLayout();
    PartitionIffNoOverlap([Range(4, 16), Range(9, 20)], 20);
  }

  lemma OverlappingLayout()
    ensures !NoOverlap(RevealingLayout([Range(4, 16), Range(9, 20)], 20).revealed)
  {
    var a, b := Range(4, 16), Range(9, 20);
    assert [a, b][1..] == [b] && [b][1..] == [];
    assert SortBy([], StartOf) == [];
    assert SortBy([b], StartOf) == [b];
    assert Insert(a, [b], StartOf) == [a, b];
    assert [a, b][0].end > [a, b][0 + 1].start;
  }

  lemma MemberOfOverlapping()
    ensures InResponse(OVERLAPPING, ID) == Some(JsonMember(Range(4, 16), Range(10, 15)))
    ensures InResponse(OVERLAPPING, LOGIN) == Some(JsonMember(Range(9, 20), Range(18, 19)))
  {
    hide InBody, FindFrom, OccursAt, OccursIgnoringCase;
    var body := [34, 105, 100, 34, 58, 34, 108, 111, 103, 105, 110, 34, 58, 34, 120, 34];
    assert OccursAt(OVERLAPPING, HEAD_END, 0) by { PrefixOccurs(HEAD_END, body); }
    FindFromIs(OVERLAPPING, HEAD_END, 0, 0);
    assert OVERLAPPING[4..] == body;
    assert !IsChunked(OVERLAPPING);
    assert ExtractResponseBody(OVERLAPPING) == Ok(body);
    BodyMembers(body);
  }

  lemma PrefixOccurs(a: bytes, b: bytes)
    ensures OccursAt(a + b, a, 0)
  {
  }

  lemma BodyMembers(body: bytes)
    requires body == [34, 105, 100, 34, 58, 34, 108, 111, 103, 105, 110, 34, 58, 34, 120, 34]
    ensures InBody(body, ID) == Some(JsonMember(Range(0, 12), Range(6, 11)))
    ensures InBody(body, LOGIN) == Some(JsonMember(Range(5, 16), Range(14, 15)))
  {
    hide InBody;
    assert Key(ID) + [COLON, QUOTE] == [34, 105, 100, 34, 58, 34];
    MemberAt(body, ID, 0, 11);
    assert Key(LOGIN) + [COLON, QUOTE] == [34, 108, 111, 103, 105, 110, 34, 58, 34];
    forall i: nat | i < 5 ensures !OccursAt(body, Key(LOGIN), i) {
      if OccursAt(body, Key(LOGIN), i) { KeyOpens(body, LOGIN, i); }
    }
    MemberAt(body, LOGIN, 5, 15);
  }
}
