/** Identity responses whose body is a JSON document, printed with any whitespace,
    sent plain or chunked: the layout's two reveals never overlap. */
module IdentityDocument {
  import opened Wrappers
  import opened Octets
  import opened Ranges
  import opened Layouts
  import opened Chunked
  import opened Offsets
  import opened JsonScan
  import opened JsonText
  import opened JsonDocument
  import opened Response
  import opened Contiguity
  import opened Ceremony
  import opened Identity

  // ----- matches sit at tokens -----

  /** Every match in a JSON text, not only the first, opens at a token. */
  lemma {:induction false} MatchIsAligned(body: bytes, off: nat, ts: seq<Spaced>, trail: bytes, field: bytes,
                                          quoted: bool, i: nat) returns (j: nat)
    requires Holds(body, off, ts, trail) && WellFormed(ts, trail) && IsName(field)
    requires off <= i && MatchesAt(body, field, quoted, i)
    ensures j < |ts| && i == off + Start(ts, j) && OpensMember(ts[j..], field, quoted)
    decreases |ts|
  {
    hide Text, Agree, MatchesAt, WellFormed;
    j := 0;
    if ts == [] {
      NoMatchInTrail(body, off, trail, field, quoted);
      FirstMatchIsFirst(body, field, quoted, off);
    } else {
      var o := off + |ts[0].ws|;
      var next := o + |Spell(ts[0].token)|;
      if i < next {
        if !ts[0].token.Quoted? || i != o { NoMatchInside(body, off, ts, trail, field, quoted, i); }
        MatchAtString(body, off, ts, trail, field, quoted);
        assert ts[0..] == ts;
      } else {
        HoldsNext(body, off, ts, trail);
        WellFormedNext(ts, trail);
        j := MatchIsAligned(body, next, ts[1..], trail, field, quoted, i);
        assert ts[1..][j..] == ts[j + 1..];
        j := j + 1;
      }
    }
  }

  // A member is settled by where it starts.
  lemma MemberIsUnique(body: bytes, field: bytes, m: JsonMember, o: JsonMember)
    requires IsMember(body, field, m) && IsMember(body, field, o) && m.member.start == o.member.start
    ensures m == o
  {
    hide MatchesAt, ValueAt;
    FindByteIs(body, QUOTE, m.value.start, m.value.end);
    FindByteIs(body, QUOTE, o.value.start, o.value.end);
  }

  /** In a printed document every string member closes: structure other than a
      colon follows its value. */
  lemma PrintedMemberCloses(ts: seq<Spaced>, trail: bytes, doc: Json, field: bytes, other: bytes, m: JsonMember)
    requires Prints(ts, trail, doc) && IsName(field) && IsName(other)
    requires IsMember(Text(ts, trail), field, m)
    ensures Closes(Text(ts, trail), m.member.end, other)
  {
    hide Text, Prints, MatchesAt, WellFormed, Agree, IsMember, OpensMember, Start, Separated, Closes, Holds;
    var body := Text(ts, trail);
    PrintedIsWellFormed(ts, trail, doc);
    TextHolds(ts, trail);
    MemberMatches(body, field, m);
    var j := MatchIsAligned(body, 0, ts, trail, field, true, m.member.start);
    MatchedValueAt(ts, trail, field, true, j);
    OpenedValue(ts, trail, field, j);
    MemberOfToken(ts, trail, field, j, m);
    ValueTokenCloses(ts, trail, doc, j + 2, other);
  }

  lemma MemberMatches(body: bytes, field: bytes, m: JsonMember)
    requires IsMember(body, field, m)
    ensures MatchesAt(body, field, true, m.member.start)
  {
  }

  lemma OpenedValue(ts: seq<Spaced>, trail: bytes, field: bytes, j: nat)
    requires j < |ts| && OpensMember(ts[j..], field, true) && WellFormed(ts, trail)
    ensures j + 2 < |ts| && ts[j + 1].token == Punct(COLON) && ts[j + 2].token.Quoted?
    ensures Without(ts[j + 2].token.content, QUOTE)
  {
    assert ts[j..][1] == ts[j + 1] && ts[j..][2] == ts[j + 2];
    TokenIsValid(ts, trail, j + 2);
  }

  lemma MemberOfToken(ts: seq<Spaced>, trail: bytes, field: bytes, j: nat, m: JsonMember)
    requires WellFormed(ts, trail) && j + 2 < |ts| && ts[j + 2].token.Quoted?
    requires Without(ts[j + 2].token.content, QUOTE)
    requires IsMember(Text(ts, trail), field, m) && m.member.start == Start(ts, j)
    requires ValueAt(Text(ts, trail), field, Start(ts, j)) == Start(ts, j + 2)
    ensures m.member.end == Start(ts, j + 2) + |Spell(ts[j + 2].token)|
  {
    hide Text, MatchesAt, WellFormed, Start, ValueAt;
    var body, q, content := Text(ts, trail), Start(ts, j + 2), ts[j + 2].token.content;
    var n, k := |content|, Spell(ts[j + 2].token);
    TokenAt(ts, trail, j + 2);
    assert |k| == n + 2 && k[0] == QUOTE && k[n + 1] == QUOTE;
    forall i | q < i <= q + n ensures body[i] != QUOTE { assert body[i] == k[i - q] == content[i - q - 1]; }
    assert body[q + n + 1] == k[n + 1];
    var o := JsonMember(Range(m.member.start, q + n + 2), Range(q + 1, q + 1 + n));
    MemberIsUnique(body, field, m, o);
  }

  lemma ValueTokenCloses(ts: seq<Spaced>, trail: bytes, doc: Json, k: nat, other: bytes)
    requires Prints(ts, trail, doc) && WellFormed(ts, trail) && Separated(Kinds(ts)) && IsName(other)
    requires 0 < k < |ts| && ts[k - 1].token == Punct(COLON) && ts[k].token.Quoted?
    ensures Closes(Text(ts, trail), Start(ts, k) + |Spell(ts[k].token)|, other)
  {
    hide Text, Prints, Agree, Start;
    var body, e := Text(ts, trail), Start(ts, k) + |Spell(ts[k].token)|;
    AfterScalar(ts, trail, k);
    if k + 1 < |ts| {
      assert Kinds(ts)[k - 1] == Punct(COLON) && Kinds(ts)[k].Quoted? && Kinds(ts)[k + 1] == ts[k + 1].token;
    }
    NameDoesNotFollow(ts, trail, k, other);
  }

  lemma NameDoesNotFollow(ts: seq<Spaced>, trail: bytes, k: nat, other: bytes)
    requires WellFormed(ts, trail) && k < |ts| && ts[k].token.Quoted? && IsName(other)
    ensures !OccursAt(Text(ts, trail), other + [QUOTE], Start(ts, k) + |Spell(ts[k].token)|)
  {
    hide Text, Holds;
    var body := Text(ts, trail);
    TextHolds(ts, trail);
    HoldsFrom(body, 0, ts, trail, k);
    ByteAfterString(body, Offset(ts, k), ts[k..], trail);
    assert (other + [QUOTE])[0] == other[0];
  }

  // ----- chunked: the raw member closes where the decoded one does -----

  lemma ClosesCarries(raw: bytes, p: nat, decoded: bytes, d: nat, n: nat, len: nat, other: bytes)
    requires Window(raw, p, decoded, d, n) && len <= n && Closes(decoded, d + len, other)
    requires IsName(other) && Without(other, CR)
    ensures Closes(raw, p + len, other)
  {
    hide Agree, OccursAt;
    var e := SkipWs(raw, p + len);
    if e < |raw| && raw[e] == COLON { ColonInWindow(raw, p, decoded, d, n, len); }
    var needle := other + [QUOTE];
    if OccursAt(raw, needle, p + len) {
      NeedleInWindow(raw, p, decoded, d, n, len, needle);
    }
  }

  // A colon past the whitespace of the raw body is one of the decoded body.
  lemma ColonInWindow(raw: bytes, p: nat, decoded: bytes, d: nat, n: nat, len: nat)
    requires Window(raw, p, decoded, d, n) && len <= n
    requires SkipWs(raw, p + len) < |raw| && raw[SkipWs(raw, p + len)] == COLON
    ensures SkipWs(decoded, d + len) < |decoded| && decoded[SkipWs(decoded, d + len)] == COLON
  {
    hide Agree;
    SkipStaysInWindow(raw, p, decoded, d, n, p + len);
    AgreePart(raw, p, decoded, d, n, len, n - len);
    SkipWsTransfer(raw, p + len, decoded, d + len, n - len);
    SameByte(raw, p, decoded, d, n, SkipWs(raw, p + len));
  }

  lemma SameByte(raw: bytes, p: nat, decoded: bytes, d: nat, n: nat, e: nat)
    requires Agree(raw, p, decoded, d, n) && p <= e < p + n
    ensures e < |raw| && e - p + d < |decoded| && raw[e] == decoded[e - p + d]
  {
  }

  lemma NeedleInWindow(raw: bytes, p: nat, decoded: bytes, d: nat, n: nat, len: nat, needle: bytes)
    requires Window(raw, p, decoded, d, n) && len <= n && Without(needle, CR)
    requires OccursAt(raw, needle, p + len)
    ensures OccursAt(decoded, needle, d + len)
  {
    hide Agree, OccursAt;
    CrStopsNeedle(raw, needle, p + len, p + n);
    AgreePart(raw, p, decoded, d, n, len, |needle|);
    AgreeSymmetric(raw, p + len, decoded, d + len, |needle|);
    OccursTransfer(raw, p + len, decoded, d + len, needle);
  }

  lemma CrStopsNeedle(raw: bytes, needle: bytes, i: nat, e: nat)
    requires OccursAt(raw, needle, i) && Without(needle, CR) && i <= e < |raw| && raw[e] == CR
    ensures i + |needle| <= e
  {
  }

  // `Closes` seen from the transcript.
  lemma ClosesInRecv(recv: bytes, at: nat, end: nat, other: bytes)
    requires at + end <= |recv| && Closes(recv[at..], end, other)
    ensures Closes(recv, at + end, other)
  {
    var raw := recv[at..];
    assert forall i | 0 <= i < |raw| :: raw[i] == recv[at + i];
    assert forall i | at <= i < |recv| :: recv[i] == raw[i - at];
    var e := SkipWs(recv, at + end);
    if e < |recv| { SkipWsIs(raw, end, e - at); }
  }

  /** Section 7 of RFC 8259: no string of the document holds a raw CR. */
  predicate StringsWithoutCr(ts: seq<Spaced>) {
    forall i | 0 <= i < |ts| && ts[i].token.Quoted? :: Without(ts[i].token.content, CR)
  }

  /** A string member of a chunked document, wherever it is found, closes. */
  lemma ChunkedMemberCloses(recv: bytes, at: nat, chunks: seq<Chunk>, last: bytes, tail: bytes,
                            ts: seq<Spaced>, trail: bytes, doc: Json, field: bytes, other: bytes, found: Range)
    requires ChunkedResponse(recv, at, chunks, last, tail)
    requires Joined(chunks) == Text(ts, trail) && Prints(ts, trail, doc) && StringsWithoutCr(ts)
    requires IsName(field) && Without(field, CR) && IsName(other) && Without(other, CR)
    requires ComputeFieldSnippetRange(recv, field) == Some(found)
    ensures Closes(recv, found.end, other)
  {
    hide ChunkedResponse, Text, Prints, InResponse, Closes, Joined, Framed, Image, ChunkEnd, InBody, StringsWithoutCr, IsName,
      Without, Slice, IsMember, MatchesAt, Window, ValidChunks;
    var m := InResponse(recv, field).value;
    forall o | InBody(Joined(chunks), field) == Some(o) ensures Without(Slice(Joined(chunks), o.value), CR) {
      FirstValueWithoutCr(ts, trail, doc, field, o);
    }
    var d, first := FoundMemberIsOnePiece(recv, at, chunks, last, tail, field, m);
    var len := found.end - found.start;
    var o := DecodedMember(recv, at, chunks, last, tail, field, m, d);
    PrintedMemberCloses(ts, trail, doc, field, other, o);
    PieceCloses(recv, at, chunks, last, tail, d, len, other);
  }

  lemma FirstValueWithoutCr(ts: seq<Spaced>, trail: bytes, doc: Json, field: bytes, o: JsonMember)
    requires Prints(ts, trail, doc) && StringsWithoutCr(ts) && IsName(field)
    requires InBody(Text(ts, trail), field) == Some(o)
    ensures Without(Slice(Text(ts, trail), o.value), CR)
  {
    hide Text, Prints, InBody, WellFormed, Start, Separated, TokenScan, Agree;
    PrintedIsWellFormed(ts, trail, doc);
    QuotedScanOfText(ts, trail, field);
    var i := TokenScan(ts, field, true).value;
    var content := ts[i + 2].token.content;
    assert Without(content, CR);
    AgreeIsSliceEquality(Text(ts, trail), o.value.start, content, 0, |content|);
    assert content[0..|content|] == content;
  }

  // The found member's bytes are a member of the decoded body too, where they sit.
  lemma DecodedMember(recv: bytes, at: nat, chunks: seq<Chunk>, last: bytes, tail: bytes, field: bytes, m: JsonMember,
                      d: nat) returns (o: JsonMember)
    requires ChunkedResponse(recv, at, chunks, last, tail) && InResponse(recv, field) == Some(m)
    requires SentInOnePiece(recv, at, chunks, d, m.member)
    ensures IsMember(Joined(chunks), field, o) && o.member == Range(d, d + (m.member.end - m.member.start))
  {
    hide Joined, Framed, Image, ChunkEnd, InBody, IsMember, IsChunked, ExtractResponseBody, FindResponseBodyRange,
      ValidChunk, Without;
    var raw := Framed(chunks, last, tail);
    var r := InBody(raw, field).value;
    FoundIsFirstMember(raw, field, r);
    var n := r.member.end - r.member.start;
    ImageAgrees(chunks, last, tail, d, n);
    MemberOrder(raw, field, r);
    MemberTransfer(raw, r.member.start, Joined(chunks), d, n, field, r);
    o := JsonMember(Range(d, d + n), Move(r.value, r.member.start, d));
  }

  lemma MemberOrder(raw: bytes, field: bytes, r: JsonMember)
    requires IsMember(raw, field, r)
    ensures r.member.start <= r.value.start <= r.value.end <= r.member.end
  {
  }

  lemma PieceCloses(recv: bytes, at: nat, chunks: seq<Chunk>, last: bytes, tail: bytes, d: nat, len: nat, other: bytes)
    requires ChunkedResponse(recv, at, chunks, last, tail) && InOneChunk(chunks, d, d + len)
    requires Closes(Joined(chunks), d + len, other) && IsName(other) && Without(other, CR)
    ensures Closes(recv, at + Image(chunks, d) + len, other)
  {
    hide Joined, Framed, Image, ChunkEnd, Closes, IsChunked, FindResponseBodyRange, ValidChunk, Without, IsName;
    WindowAt(chunks, last, tail, d);
    var raw, p, n := Framed(chunks, last, tail), Image(chunks, d), ChunkEnd(chunks, d) - d;
    ClosesCarries(raw, p, Joined(chunks), d, n, len, other);
    WindowFits(raw, p, Joined(chunks), d, n);
    ClosesInRecv(recv, at, p + len, other);
  }

  lemma WindowFits(raw: bytes, p: nat, decoded: bytes, d: nat, n: nat)
    requires Window(raw, p, decoded, d, n)
    ensures p + n <= |raw|
  {
  }

  /** Both members of a chunked JSON document close, where they are found. */
  lemma ChunkedDocumentCloses(recv: bytes, at: nat, chunks: seq<Chunk>, last: bytes, tail: bytes,
                              ts: seq<Spaced>, trail: bytes, doc: Json, session: IdentitySession)
    requires ChunkedResponse(recv, at, chunks, last, tail)
    requires Joined(chunks) == Text(ts, trail) && Prints(ts, trail, doc) && StringsWithoutCr(ts)
    requires IsName(session.idField) && IsName(session.handleField)
    requires Without(session.idField, CR) && Without(session.handleField, CR)
    ensures SessionCloses(recv, session)
  {
    hide ChunkedResponse, Text, Prints, Joined, StringsWithoutCr, ComputeFieldSnippetRange, Closes, IsName, Without;
    var id, handle := ComputeFieldSnippetRange(recv, session.idField), ComputeFieldSnippetRange(recv, session.handleField);
    if handle.Some? {
      ChunkedMemberCloses(recv, at, chunks, last, tail, ts, trail, doc, session.handleField, session.idField, handle.value);
    }
    if session.idShape.JsonString? && id.Some? {
      ChunkedMemberCloses(recv, at, chunks, last, tail, ts, trail, doc, session.idField, session.handleField, id.value);
    }
  }

  /** The identity layout of any chunked JSON document tiles, whenever it is built. */
  lemma ChunkedDocumentTiles(recv: bytes, at: nat, chunks: seq<Chunk>, last: bytes, tail: bytes,
                             ts: seq<Spaced>, trail: bytes, doc: Json, session: IdentitySession, l: Layout)
    requires ChunkedResponse(recv, at, chunks, last, tail)
    requires Joined(chunks) == Text(ts, trail) && Prints(ts, trail, doc) && StringsWithoutCr(ts)
    requires IsName(session.idField) && IsName(session.handleField) && session.idField != session.handleField
    requires Without(session.idField, CR) && Without(session.handleField, CR)
    requires IdentityResponse(recv, session) == Ok(l)
    ensures |l.revealed| == 2 && NoOverlap(l.revealed) && NonEmpty(l.revealed) && InBounds(l.revealed, |recv|)
    ensures Tiles(l.revealed + l.committed, |recv|)
  {
    hide ChunkedResponse, Text, Prints, Joined, StringsWithoutCr, Tiles, SessionCloses, IsName, Without, RevealingLayout;
    ChunkedDocumentCloses(recv, at, chunks, last, tail, ts, trail, doc, session);
    IdentityResponseTiles(recv, session, l);
  }

  // ----- plain -----

  lemma PlainMemberCloses(recv: bytes, at: nat, ts: seq<Spaced>, trail: bytes, doc: Json, field: bytes, other: bytes,
                          found: Range)
    requires at <= |recv| && FindResponseBodyRange(recv) == Some(Range(at, |recv|)) && !IsChunked(recv)
    requires recv[at..] == Text(ts, trail) && Prints(ts, trail, doc) && IsName(field) && IsName(other)
    requires ComputeFieldSnippetRange(recv, field) == Some(found)
    ensures Closes(recv, found.end, other)
  {
    hide Text, Prints, InBody, IsMember, IsChunked, FindResponseBodyRange, Closes, IsName;
    var m := InBody(recv[at..], field).value;
    FoundIsFirstMember(recv[at..], field, m);
    PrintedMemberCloses(ts, trail, doc, field, other, m);
    ClosesInRecv(recv, at, m.member.end, other);
  }

  /** Both members of a plain document close. */
  lemma PlainDocumentCloses(recv: bytes, at: nat, ts: seq<Spaced>, trail: bytes, doc: Json, session: IdentitySession)
    requires at <= |recv| && FindResponseBodyRange(recv) == Some(Range(at, |recv|)) && !IsChunked(recv)
    requires recv[at..] == Text(ts, trail) && Prints(ts, trail, doc)
    requires IsName(session.idField) && IsName(session.handleField)
    ensures SessionCloses(recv, session)
  {
    hide Text, Prints, ComputeFieldSnippetRange, Closes, IsName, IsChunked, FindResponseBodyRange;
    var id, handle := ComputeFieldSnippetRange(recv, session.idField), ComputeFieldSnippetRange(recv, session.handleField);
    if handle.Some? { PlainMemberCloses(recv, at, ts, trail, doc, session.handleField, session.idField, handle.value); }
    if session.idShape.JsonString? && id.Some? {
      PlainMemberCloses(recv, at, ts, trail, doc, session.idField, session.handleField, id.value);
    }
  }

  /** And so does the layout of any plain one. */
  lemma PlainDocumentTiles(recv: bytes, at: nat, ts: seq<Spaced>, trail: bytes, doc: Json, session: IdentitySession,
                           l: Layout)
    requires at <= |recv| && FindResponseBodyRange(recv) == Some(Range(at, |recv|)) && !IsChunked(recv)
    requires recv[at..] == Text(ts, trail) && Prints(ts, trail, doc)
    requires IsName(session.idField) && IsName(session.handleField) && session.idField != session.handleField
    requires IdentityResponse(recv, session) == Ok(l)
    ensures |l.revealed| == 2 && NoOverlap(l.revealed) && NonEmpty(l.revealed) && InBounds(l.revealed, |recv|)
    ensures Tiles(l.revealed + l.committed, |recv|)
  {
    hide Text, Prints, Tiles, SessionCloses, IsName, IsChunked, FindResponseBodyRange, RevealingLayout;
    PlainDocumentCloses(recv, at, ts, trail, doc, session);
    IdentityResponseTiles(recv, session, l);
  }
}
