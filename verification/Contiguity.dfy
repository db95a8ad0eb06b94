/** A member is revealed or committed only where the server sent it in one piece.

    Chunk framing holds no quote, colon, comma or brace, so a scan of the raw
    body can run through it. These lemmas say what the comparison with the
    decoded body buys: what is returned lies inside one chunk (soundness), and
    a member that lies inside one chunk is returned, at its image (completeness). */
module Contiguity {
  import opened Wrappers
  import opened Octets
  import opened Chunked
  import opened Offsets
  import opened JsonScan
  import opened Response

  // ----- a match, carried from one body to another that agrees with it -----

  lemma ColonTransfer(a: bytes, i: nat, b: bytes, j: nat, n: nat, field: bytes)
    requires Agree(a, i, b, j, n) && OccursAt(a, Key(field), i) && ColonAt(a, field, i) < i + n
    ensures OccursAt(b, Key(field), j)
    ensures ColonAt(b, field, j) == j + (ColonAt(a, field, i) - i)
  {
    var k := |Key(field)|;
    AgreeSymmetric(a, i, b, j, n);
    OccursTransfer(a, i, b, j, Key(field));
    AgreePart(a, i, b, j, n, k, n - k);
    SkipWsTransfer(a, i + k, b, j + k, n - k);
  }

  lemma ValueTransfer(a: bytes, i: nat, b: bytes, j: nat, n: nat, field: bytes)
    requires Agree(a, i, b, j, n) && ValueAt(a, field, i) < i + n
    requires ColonAt(b, field, j) == j + (ColonAt(a, field, i) - i)
    ensures ValueAt(b, field, j) == j + (ValueAt(a, field, i) - i)
  {
    var c := ColonAt(a, field, i) + 1 - i;
    AgreePart(a, i, b, j, n, c, n - c);
    SkipWsTransfer(a, i + c, b, j + c, n - c);
  }

  lemma MatchTransfer(a: bytes, i: nat, b: bytes, j: nat, n: nat, field: bytes, quoted: bool)
    requires Agree(a, i, b, j, n) && MatchesAt(a, field, quoted, i)
    requires ColonAt(a, field, i) < i + n && (quoted ==> ValueAt(a, field, i) < i + n)
    ensures MatchesAt(b, field, quoted, j)
    ensures ColonAt(b, field, j) == j + (ColonAt(a, field, i) - i)
    ensures ValueAt(a, field, i) < i + n ==> ValueAt(b, field, j) == j + (ValueAt(a, field, i) - i)
  {
    ColonTransfer(a, i, b, j, n, field);
    if ValueAt(a, field, i) < i + n {
      ValueTransfer(a, i, b, j, n, field);
    }
  }

  // ----- framing stops a scan -----

  lemma KeyStaysInWindow(raw: bytes, p: nat, decoded: bytes, d: nat, n: nat, field: bytes)
    requires Window(raw, p, decoded, d, n) && OccursAt(raw, Key(field), p) && Without(field, CR)
    ensures |Key(field)| <= n
  {
    assert Key(field)[0] == QUOTE && Key(field)[|field| + 1] == QUOTE;
  }

  lemma SkipStaysInWindow(raw: bytes, p: nat, decoded: bytes, d: nat, n: nat, at: nat)
    requires Window(raw, p, decoded, d, n) && p <= at <= p + n
    requires var e := SkipWs(raw, at); e < |raw| && !IsFramingByte(raw[e])
    ensures SkipWs(raw, at) < p + n
  {
  }

  /** A raw match never runs through framing, and the decoded body matches with it. */
  lemma MatchStaysInWindow(raw: bytes, p: nat, decoded: bytes, d: nat, n: nat, field: bytes, quoted: bool)
    requires Window(raw, p, decoded, d, n) && MatchesAt(raw, field, quoted, p) && Without(field, CR)
    ensures ColonAt(raw, field, p) < p + n && (quoted ==> ValueAt(raw, field, p) < p + n)
    ensures MatchesAt(decoded, field, quoted, d)
  {
    KeyStaysInWindow(raw, p, decoded, d, n, field);
    SkipStaysInWindow(raw, p, decoded, d, n, p + |Key(field)|);
    if quoted { SkipStaysInWindow(raw, p, decoded, d, n, ColonAt(raw, field, p) + 1); }
    MatchTransfer(raw, p, decoded, d, n, field, quoted);
  }

  /** Framing creates no match: every raw match is the image of a decoded one. */
  lemma RawMatchIsDecoded(chunks: seq<Chunk>, last: bytes, tail: bytes, field: bytes, quoted: bool, p: nat)
    returns (d: nat)
    requires ValidChunks(chunks) && ValidLast(last) && Without(tail, QUOTE) && Without(field, CR)
    requires MatchesAt(Framed(chunks, last, tail), field, quoted, p)
    ensures d < |Joined(chunks)| && Image(chunks, d) == p
    ensures MatchesAt(Joined(chunks), field, quoted, d)
    ensures var end := p + (ChunkEnd(chunks, d) - d);
            ColonAt(Framed(chunks, last, tail), field, p) < end &&
            (quoted ==> ValueAt(Framed(chunks, last, tail), field, p) < end)
  {
    hide ValidChunk, ColonAt, ValueAt, ChunkEnd, Image, Framed, Joined;
    var raw := Framed(chunks, last, tail);
    assert raw[p] == Key(field)[0] == QUOTE;
    d := Preimage(chunks, last, tail, p);
    WindowAt(chunks, last, tail, d);
    MatchStaysInWindow(raw, p, Joined(chunks), d, ChunkEnd(chunks, d) - d, field, quoted);
  }

  /** Framing hides no match it does not run through, and creates no earlier one:
      the raw scan stops at the image of the decoded scan's match. */
  lemma FirstMatchCarries(chunks: seq<Chunk>, last: bytes, tail: bytes, field: bytes, quoted: bool, s: nat)
    requires ValidChunks(chunks) && ValidLast(last) && Without(tail, QUOTE) && Without(field, CR)
    requires FirstMatch(Joined(chunks), field, quoted, 0) == Some(s)
    requires s < |Joined(chunks)| && ValueAt(Joined(chunks), field, s) < ChunkEnd(chunks, s)
    ensures FirstMatch(Framed(chunks, last, tail), field, quoted, 0) == Some(Image(chunks, s))
  {
    hide ValidChunk, Framed, Joined, Image, ChunkEnd, ColonAt, ValueAt, Key, MatchesAt, FirstMatch, Agree, Without;
    var raw, decoded := Framed(chunks, last, tail), Joined(chunks);
    FirstMatchIsFirst(decoded, field, quoted, 0);
    var p, n := Image(chunks, s), ChunkEnd(chunks, s) - s;
    WindowAt(chunks, last, tail, s);
    AgreeSymmetric(raw, p, decoded, s, n);
    MatchTransfer(decoded, s, raw, p, n, field, quoted);
    forall i: nat | i < p ensures !MatchesAt(raw, field, quoted, i) {
      if MatchesAt(raw, field, quoted, i) {
        var d := RawMatchIsDecoded(chunks, last, tail, field, quoted, i);
        if s < d { ImageIncreases(chunks, s, d); }
      }
    }
    FirstMatchIs(raw, field, quoted, 0, p);
  }

  // ----- whole members -----

  function Move(r: Range, i: nat, j: nat): Range
    requires i <= r.start && i <= r.end
  {
    Range(r.start - i + j, r.end - i + j)
  }

  lemma MemberTransfer(a: bytes, i: nat, b: bytes, j: nat, n: nat, field: bytes, m: JsonMember)
    requires Agree(a, i, b, j, n) && IsMember(a, field, m) && m.member == Range(i, i + n)
    ensures IsMember(b, field, JsonMember(Range(j, j + n), Move(m.value, i, j)))
  {
    hide MatchesAt, ColonAt, ValueAt, Key;
    MatchTransfer(a, i, b, j, n, field, true);
    AgreeSymmetric(a, i, b, j, n);
  }

  lemma DigitRunTransfer(a: bytes, i: nat, b: bytes, j: nat, n: nat)
    requires Agree(a, i, b, j, n) && DigitRun(a, i) < i + n
    ensures DigitRun(b, j) == j + (DigitRun(a, i) - i)
    decreases n
  {
    if n > 0 && IsDigit(a[i]) {
      AgreePart(a, i, b, j, n, 1, n - 1);
      DigitRunTransfer(a, i + 1, b, j + 1, n - 1);
    }
  }

  lemma BareTransfer(a: bytes, i: nat, b: bytes, j: nat, n: nat, field: bytes)
    requires Agree(a, i, b, j, n) && IsBare(a, field, Range(i, i + n))
    ensures IsBare(b, field, Range(j, j + n))
  {
    hide MatchesAt, ColonAt, ValueAt, Key, DigitRun;
    MatchTransfer(a, i, b, j, n, field, false);
    var v := ValueAt(a, field, i);
    var end := DigitRun(a, v);
    AgreePart(a, i, b, j, n, v - i, n - (v - i));
    DigitRunTransfer(a, v, b, j + (v - i), n - (v - i));
    AgreePart(a, i, b, j, n, end - i, n - (end - i));
    SkipWsTransfer(a, end, b, j + (end - i), n - (end - i));
  }

  // ----- bodies -----

  lemma ImageAgrees(chunks: seq<Chunk>, last: bytes, tail: bytes, d: nat, n: nat)
    requires ValidChunks(chunks) && ValidLast(last) && InOneChunk(chunks, d, d + n)
    ensures Agree(Framed(chunks, last, tail), Image(chunks, d), Joined(chunks), d, n)
  {
    WindowAt(chunks, last, tail, d);
    AgreePart(Framed(chunks, last, tail), Image(chunks, d), Joined(chunks), d, ChunkEnd(chunks, d) - d, 0, n);
  }

  /** Completeness: the quoted member of the decoded body, sent in one piece, is
      found raw at exactly its image. */
  lemma MemberCarries(chunks: seq<Chunk>, last: bytes, tail: bytes, field: bytes, m: JsonMember)
    requires ValidChunks(chunks) && ValidLast(last) && Without(tail, QUOTE) && Without(field, CR)
    requires InBody(Joined(chunks), field) == Some(m) && InOneChunk(chunks, m.member.start, m.member.end)
    ensures m.member.start <= m.value.start <= m.value.end
    ensures Contiguous(Framed(chunks, last, tail), Joined(chunks), field) ==
            Some(JsonMember(Move(m.member, m.member.start, Image(chunks, m.member.start)),
                            Move(m.value, m.member.start, Image(chunks, m.member.start))))
  {
    hide MatchesAt, ColonAt, ValueAt, Key, InBody, FirstMatch, Framed, Joined, Image, ChunkEnd, ValidChunk, Contiguous;
    var raw, decoded := Framed(chunks, last, tail), Joined(chunks);
    FoundIsFirstMember(decoded, field, m);
    var s := m.member.start;
    FirstMatchCarries(chunks, last, tail, field, true, s);
    ImageAgrees(chunks, last, tail, s, m.member.end - s);
    AgreedMemberIsFound(raw, Image(chunks, s), decoded, field, m);
  }

  lemma AgreedMemberIsFound(raw: bytes, p: nat, decoded: bytes, field: bytes, m: JsonMember)
    requires InBody(decoded, field) == Some(m) && IsMember(decoded, field, m)
    requires m.member.start <= m.value.start <= m.value.end
    requires Agree(raw, p, decoded, m.member.start, m.member.end - m.member.start)
    requires FirstMatch(raw, field, true, 0) == Some(p)
    ensures Contiguous(raw, decoded, field) ==
            Some(JsonMember(Move(m.member, m.member.start, p), Move(m.value, m.member.start, p)))
  {
    hide MatchesAt, ColonAt, ValueAt, Key, InBody, FirstMatch, IsMember;
    var s, n: nat := m.member.start, m.member.end - m.member.start;
    var o := JsonMember(Range(p, p + n), Move(m.value, s, p));
    assert IsMember(raw, field, o) by {
      AgreeSymmetric(raw, p, decoded, s, n);
      MemberTransfer(decoded, s, raw, p, n, field, m);
    }
    assert raw[p..p + n] == decoded[s..s + n] by { AgreeIsSliceEquality(raw, p, decoded, s, n); }
    FirstMemberIsFound(raw, field, o);
  }

  /** The bare member of the decoded body, found raw at its image. */
  lemma BareCarries(chunks: seq<Chunk>, last: bytes, tail: bytes, field: bytes, m: Range)
    requires ValidChunks(chunks) && ValidLast(last) && Without(tail, QUOTE) && Without(field, CR)
    requires BareSnippet(Joined(chunks), field) == Some(m) && InOneChunk(chunks, m.start, m.end)
    ensures ContiguousBare(Framed(chunks, last, tail), Joined(chunks), field) ==
            Some(Move(m, m.start, Image(chunks, m.start)))
  {
    hide MatchesAt, ColonAt, ValueAt, Key, BareSnippet, IsBare, FirstMatch, Framed, Joined, Image, ChunkEnd, ValidChunk, ContiguousBare;
    var raw, decoded := Framed(chunks, last, tail), Joined(chunks);
    FoundIsFirstBare(decoded, field, m);
    ValueInsideBare(decoded, field, m);
    var s := m.start;
    FirstMatchCarries(chunks, last, tail, field, false, s);
    ImageAgrees(chunks, last, tail, s, m.end - s);
    AgreedBareIsFound(raw, Image(chunks, s), decoded, field, m);
  }

  lemma ValueInsideBare(body: bytes, field: bytes, r: Range)
    requires IsBare(body, field, r)
    ensures r.start < ValueAt(body, field, r.start) < r.end
  {
  }

  lemma AgreedBareIsFound(raw: bytes, p: nat, decoded: bytes, field: bytes, m: Range)
    requires BareSnippet(decoded, field) == Some(m) && IsBare(decoded, field, m)
    requires Agree(raw, p, decoded, m.start, m.end - m.start)
    requires FirstMatch(raw, field, false, 0) == Some(p)
    ensures ContiguousBare(raw, decoded, field) == Some(Move(m, m.start, p))
  {
    hide MatchesAt, ColonAt, ValueAt, Key, BareSnippet, FirstMatch, IsBare;
    var s, n: nat := m.start, m.end - m.start;
    assert IsBare(raw, field, Range(p, p + n)) by {
      AgreeSymmetric(raw, p, decoded, s, n);
      BareTransfer(decoded, s, raw, p, n, field);
    }
    assert raw[p..p + n] == decoded[s..s + n] by { AgreeIsSliceEquality(raw, p, decoded, s, n); }
    FirstBareIsFound(raw, field, Range(p, p + n));
  }

  // Two members of the same bytes hold the same value at the same place.
  lemma SameMemberSameValue(a: bytes, m: JsonMember, b: bytes, o: JsonMember, field: bytes)
    requires IsMember(a, field, m) && IsMember(b, field, o)
    requires Slice(a, m.member) == Slice(b, o.member)
    ensures m.value.end - m.value.start == o.value.end - o.value.start
    ensures Agree(a, m.value.start, b, o.value.start, m.value.end - m.value.start)
  {
    hide MatchesAt, ColonAt, ValueAt, Key;
    var i, j, n := m.member.start, o.member.start, m.member.end - m.member.start;
    assert n == |Slice(b, o.member)|;
    AgreeIsSliceEquality(a, i, b, j, n);
    MatchTransfer(a, i, b, j, n, field, true);
    AgreePart(a, i, b, j, n, m.value.start - i, m.value.end - m.value.start);
  }

  /** Soundness of the comparison, exactly: the raw member accepted lies inside one chunk
      if and only if the decoded body holds the first member's bytes at the place the
      raw match comes from, which is what the code does not compare. It does so whenever
      the first value holds no raw CR, as section 7 of RFC 8259 requires. */
  lemma ContiguousMemberIsOnePiece(chunks: seq<Chunk>, last: bytes, tail: bytes, field: bytes,
                                   m: JsonMember, first: JsonMember) returns (d: nat)
    requires ValidChunks(chunks) && ValidLast(last) && Without(tail, QUOTE) && Without(field, CR)
    requires InBody(Framed(chunks, last, tail), field) == Some(m) && InBody(Joined(chunks), field) == Some(first)
    requires Slice(Framed(chunks, last, tail), m.member) == Slice(Joined(chunks), first.member)
    ensures d < |Joined(chunks)| && Image(chunks, d) == m.member.start && MatchesAt(Joined(chunks), field, true, d)
    ensures var n := m.member.end - m.member.start;
            InOneChunk(chunks, d, d + n) <==> Agree(Joined(chunks), d, Joined(chunks), first.member.start, n)
    ensures Without(Slice(Joined(chunks), first.value), CR) ==> InOneChunk(chunks, d, d + (m.member.end - m.member.start))
  {
    hide MatchesAt, ColonAt, Key, InBody, FirstMatch, Framed, Joined, Image, ChunkEnd, ValidChunk, Without, Agree, Slice;
    var raw, decoded := Framed(chunks, last, tail), Joined(chunks);
    FoundIsFirstMember(raw, field, m);
    FoundIsFirstMember(decoded, field, first);
    d := RawMatchIsDecoded(chunks, last, tail, field, true, m.member.start);
    var p, n := m.member.start, m.member.end - m.member.start;
    SameMemberSameValue(raw, m, decoded, first, field);
    SliceLengths(raw, m.member, decoded, first.member);
    if InOneChunk(chunks, d, d + n) { OnePieceAgrees(chunks, last, tail, d, p, n, first.member.start); }
    if Agree(decoded, d, decoded, first.member.start, n) {
      AgreeingMemberIsOnePiece(chunks, last, tail, field, m, first, d);
    }
    if Without(Slice(decoded, first.value), CR) {
      WindowAt(chunks, last, tail, d);
      ValueStaysInWindow(raw, m, decoded, first, p + (ChunkEnd(chunks, d) - d));
    }
  }

  lemma SliceLengths(a: bytes, r: Range, b: bytes, q: Range)
    requires Fits(r, a) && Fits(q, b) && Slice(a, r) == Slice(b, q)
    ensures r.end - r.start == q.end - q.start && Agree(a, r.start, b, q.start, r.end - r.start)
  {
    assert r.end - r.start == |Slice(b, q)|;
    AgreeIsSliceEquality(a, r.start, b, q.start, r.end - r.start);
  }

  lemma OnePieceAgrees(chunks: seq<Chunk>, last: bytes, tail: bytes, d: nat, p: nat, n: nat, f: nat)
    requires ValidChunks(chunks) && ValidLast(last) && InOneChunk(chunks, d, d + n) && Image(chunks, d) == p
    requires Agree(Framed(chunks, last, tail), p, Joined(chunks), f, n)
    ensures Agree(Joined(chunks), d, Joined(chunks), f, n)
  {
    hide Framed, Joined, Image, ChunkEnd, ValidChunk;
    ImageAgrees(chunks, last, tail, d, n);
    AgreeBoth(Framed(chunks, last, tail), p, Joined(chunks), d, f, n);
  }

  lemma AgreeBoth(a: bytes, p: nat, b: bytes, d: nat, f: nat, n: nat)
    requires Agree(a, p, b, d, n) && Agree(a, p, b, f, n)
    ensures Agree(b, d, b, f, n)
  {
    forall x | d <= x < d + n ensures b[x] == b[x - d + f] { assert a[x - d + p] == b[x]; }
  }

  // The closing quote is no framing byte, so it is the image of a decoded quote; the
  // decoded member has none before its own last byte, and only there the map has not
  // moved past the member's length.
  lemma AgreeingMemberIsOnePiece(chunks: seq<Chunk>, last: bytes, tail: bytes, field: bytes,
                                 m: JsonMember, first: JsonMember, d: nat)
    requires ValidChunks(chunks) && ValidLast(last) && Without(tail, QUOTE)
    requires IsMember(Framed(chunks, last, tail), field, m) && IsMember(Joined(chunks), field, first)
    requires m.member.end - m.member.start == first.member.end - first.member.start
    requires m.value.end - m.value.start == first.value.end - first.value.start
    requires d < |Joined(chunks)| && Image(chunks, d) == m.member.start
    requires ValueAt(Framed(chunks, last, tail), field, m.member.start) < m.member.start + (ChunkEnd(chunks, d) - d)
    requires Agree(Joined(chunks), d, Joined(chunks), first.member.start, m.member.end - m.member.start)
    ensures InOneChunk(chunks, d, d + (m.member.end - m.member.start))
  {
    hide MatchesAt, ColonAt, ValueAt, Key, Framed, Joined, Image, ChunkEnd, ValidChunk;
    var raw, decoded := Framed(chunks, last, tail), Joined(chunks);
    var p, n, v := m.member.start, m.member.end - m.member.start, m.value.start - m.member.start;
    var q := Preimage(chunks, last, tail, m.value.end);
    ImageKeepsBytes(chunks, last, tail, q);
    if q < d { ImageIncreases(chunks, q, d); }
    ImageGap(chunks, d, q);
    QuoteIsLast(decoded, first, d, n, v, q);
  }

  // A quote past the value's opening one is the closing one.
  lemma QuoteIsLast(decoded: bytes, first: JsonMember, d: nat, n: nat, v: nat, q: nat)
    requires Fits(first.member, decoded) && n == first.member.end - first.member.start
    requires first.value.start == first.member.start + v && first.member.end == first.value.end + 1
    requires forall i | first.value.start <= i < first.value.end :: decoded[i] != QUOTE
    requires Agree(decoded, d, decoded, first.member.start, n)
    requires d + v <= q < d + n && decoded[q] == QUOTE
    ensures q == d + n - 1
  {
    assert decoded[q] == decoded[q - d + first.member.start];
  }

  lemma ValueStaysInWindow(raw: bytes, m: JsonMember, decoded: bytes, first: JsonMember, end: nat)
    requires Fits(m.value, raw) && Fits(first.value, decoded) && m.member.end == m.value.end + 1
    requires m.value.end < |raw| && raw[m.value.end] == QUOTE
    requires Agree(raw, m.value.start, decoded, first.value.start, m.value.end - m.value.start)
    requires m.value.end - m.value.start == first.value.end - first.value.start
    requires Without(Slice(decoded, first.value), CR)
    requires m.value.start <= end < |raw| && raw[end] == CR
    ensures m.member.end <= end
  {
    forall i | m.value.start <= i < m.value.end ensures raw[i] != CR {
      assert raw[i] == Slice(decoded, first.value)[i - m.value.start];
    }
  }

  lemma CrEndsRange(raw: bytes, r: Range, end: nat)
    requires Fits(r, raw) && Without(Slice(raw, r), CR)
    requires r.start <= end < |raw| && raw[end] == CR
    ensures r.end <= end
  {
    forall i | r.start <= i < r.end ensures raw[i] != CR {
      assert raw[i] == Slice(raw, r)[i - r.start];
    }
  }

  // ----- responses -----

  /** A response whose body starts at `at` and is chunked, the chunks given. The
      bytes after the last chunk's size line hold no quote; on a canonical
      response they are the one CRLF. */
  ghost predicate ChunkedResponse(recv: bytes, at: nat, chunks: seq<Chunk>, last: bytes, tail: bytes) {
    && |recv| < USIZE_LIMIT
    && FindResponseBodyRange(recv) == Some(Range(at, |recv|)) && IsChunked(recv)
    && ValidChunks(chunks) && ValidLast(last) && Without(tail, QUOTE)
    && at <= |recv| && recv[at..] == Framed(chunks, last, tail)
  }

  lemma ChunkedBody(recv: bytes, at: nat, chunks: seq<Chunk>, last: bytes, tail: bytes)
    requires ChunkedResponse(recv, at, chunks, last, tail)
    ensures ExtractResponseBody(recv) == Ok(Joined(chunks))
  {
    hide IsChunked, FindResponseBodyRange, Framed, Joined, ValidChunk;
    DecodeFramed(chunks, last, tail);
  }

  /** Completeness: where the first such member of the decoded body was sent in
      one piece, it is returned, at exactly its image. */
  lemma MemberInOneChunkIsFound(recv: bytes, at: nat, chunks: seq<Chunk>, last: bytes, tail: bytes, field: bytes,
                                m: JsonMember)
    requires ChunkedResponse(recv, at, chunks, last, tail) && Without(field, CR)
    requires InBody(Joined(chunks), field) == Some(m) && InOneChunk(chunks, m.member.start, m.member.end)
    ensures m.member.start <= m.value.start <= m.value.end
    ensures var p := at + Image(chunks, m.member.start);
            InResponse(recv, field) ==
            Some(JsonMember(Move(m.member, m.member.start, p), Move(m.value, m.member.start, p)))
  {
    hide Contiguous, InBody, IsChunked, ExtractResponseBody, FindResponseBodyRange, Framed, Joined, Image, ValidChunk;
    ChunkedBody(recv, at, chunks, last, tail);
    MemberCarries(chunks, last, tail, field, m);
  }

  lemma BareInOneChunkIsFound(recv: bytes, at: nat, chunks: seq<Chunk>, last: bytes, tail: bytes, field: bytes,
                              m: Range)
    requires ChunkedResponse(recv, at, chunks, last, tail) && Without(field, CR)
    requires BareSnippet(Joined(chunks), field) == Some(m) && InOneChunk(chunks, m.start, m.end)
    ensures ComputeIdSnippetRange(recv, field, false) == Some(Move(m, m.start, at + Image(chunks, m.start)))
  {
    hide ContiguousBare, BareSnippet, IsChunked, ExtractResponseBody, FindResponseBodyRange, Framed, Joined, Image,
      ValidChunk;
    ChunkedBody(recv, at, chunks, last, tail);
    BareCarries(chunks, last, tail, field, m);
  }

  /** Transcript bytes `r` are decoded bytes from `d` on, sent in one piece. */
  ghost predicate SentInOnePiece(recv: bytes, at: nat, chunks: seq<Chunk>, d: nat, r: Range) {
    && Fits(r, recv) && InOneChunk(chunks, d, d + (r.end - r.start))
    && r.start == at + Image(chunks, d)
    && Slice(recv, r) == Joined(chunks)[d..d + (r.end - r.start)]
  }

  lemma OnePieceIsSent(recv: bytes, at: nat, chunks: seq<Chunk>, last: bytes, tail: bytes, d: nat, n: nat)
    requires ChunkedResponse(recv, at, chunks, last, tail) && InOneChunk(chunks, d, d + n)
    ensures SentInOnePiece(recv, at, chunks, d, Range(at + Image(chunks, d), at + Image(chunks, d) + n))
  {
    hide IsChunked, FindResponseBodyRange, Framed, Joined, ValidChunk, Image, ChunkEnd;
    var raw, p := Framed(chunks, last, tail), Image(chunks, d);
    ImageAgrees(chunks, last, tail, d, n);
    AgreeIsSliceEquality(raw, p, Joined(chunks), d, n);
    SliceOfTail(recv, at, Range(p, p + n));
  }

  lemma SliceOfTail(recv: bytes, at: nat, r: Range)
    requires at <= |recv| && Fits(r, recv[at..])
    ensures Fits(Shift(r, at), recv) && Slice(recv, Shift(r, at)) == Slice(recv[at..], r)
  {
  }

  /** Soundness: member and value returned hold the first decoded member's bytes, and the
      member was sent in one piece exactly when the decoded body holds those bytes where
      the raw match comes from -- always, when the first value holds no raw CR. */
  lemma FoundMemberIsOnePiece(recv: bytes, at: nat, chunks: seq<Chunk>, last: bytes, tail: bytes, field: bytes,
                              found: JsonMember) returns (d: nat, first: JsonMember)
    requires ChunkedResponse(recv, at, chunks, last, tail) && Without(field, CR)
    requires InResponse(recv, field) == Some(found)
    ensures InBody(Joined(chunks), field) == Some(first)
    ensures d < |Joined(chunks)| && found.member.start == at + Image(chunks, d) && MatchesAt(Joined(chunks), field, true, d)
    ensures SentInOnePiece(recv, at, chunks, d, found.member) <==>
            Agree(Joined(chunks), d, Joined(chunks), first.member.start, first.member.end - first.member.start)
    ensures Without(Slice(Joined(chunks), first.value), CR) ==> SentInOnePiece(recv, at, chunks, d, found.member)
    ensures Fits(found.member, recv) && Slice(recv, found.member) == Slice(Joined(chunks), first.member)
    ensures Fits(found.value, recv) && Slice(recv, found.value) == Slice(Joined(chunks), first.value)
  {
    hide InBody, IsChunked, ExtractResponseBody, FindResponseBodyRange, Framed, Joined, Image, ValidChunk, Without,
      IsMember, SentInOnePiece, InOneChunk, MatchesAt, Agree;
    ChunkedBody(recv, at, chunks, last, tail);
    var raw, decoded := Framed(chunks, last, tail), Joined(chunks);
    var m := InBody(raw, field).value;
    first := InBody(decoded, field).value;
    assert found == ShiftMember(m, at) && Slice(raw, m.member) == Slice(decoded, first.member);
    SliceLengths(raw, m.member, decoded, first.member);
    d := ContiguousMemberIsOnePiece(chunks, last, tail, field, m, first);
    var n := m.member.end - m.member.start;
    if InOneChunk(chunks, d, d + n) { OnePieceIsSent(recv, at, chunks, last, tail, d, n); }
    if SentInOnePiece(recv, at, chunks, d, found.member) { SentIsOnePiece(recv, at, chunks, d, found.member); }
    SliceOfTail(recv, at, m.member);
    SliceOfTail(recv, at, m.value);
    FoundValuesAgree(raw, m, decoded, first, field);
  }

  lemma SentIsOnePiece(recv: bytes, at: nat, chunks: seq<Chunk>, d: nat, r: Range)
    requires SentInOnePiece(recv, at, chunks, d, r)
    ensures Fits(r, recv) && InOneChunk(chunks, d, d + (r.end - r.start)) && r.start == at + Image(chunks, d)
  {
  }

  lemma FoundValuesAgree(raw: bytes, m: JsonMember, decoded: bytes, first: JsonMember, field: bytes)
    requires InBody(raw, field) == Some(m) && InBody(decoded, field) == Some(first)
    requires Slice(raw, m.member) == Slice(decoded, first.member)
    ensures Slice(raw, m.value) == Slice(decoded, first.value)
  {
    hide InBody, MatchesAt, ColonAt, ValueAt, FirstMatch;
    FoundIsFirstMember(raw, field, m);
    FoundIsFirstMember(decoded, field, first);
    SameMemberSameValue(raw, m, decoded, first, field);
    AgreeIsSliceEquality(raw, m.value.start, decoded, first.value.start, m.value.end - m.value.start);
  }
}
