/** From the HTTP messages to the signed bytes: every stage of the pipeline in one
    statement for each of the two sessions. */
module EndToEnd {
  import opened Wrappers
  import opened Octets
  import opened Chunked
  import opened Offsets
  import opened Ranges
  import opened Layouts
  import opened JsonScan
  import opened JsonText
  import opened JsonDocument
  import opened Response
  import opened Contiguity
  import opened Head
  import opened Record
  import opened Attest
  import opened Ceremony
  import opened Identity
  import opened IdentityDocument
  import opened Coverage
  import opened SessionRecords
  import opened BareNumbers
  import opened PlainBodies

  // ----- a document's member, served -----

  /** A chunked response whose decoded body is a printing of `doc`. */
  ghost predicate ServesDocument(recv: bytes, at: nat, chunks: seq<Chunk>, last: bytes, tail: bytes,
                                 ts: seq<Spaced>, trail: bytes, doc: Json) {
    && ChunkedResponse(recv, at, chunks, last, tail)
    && Joined(chunks) == Text(ts, trail) && Prints(ts, trail, doc) && StringsWithoutCr(ts)
  }

  /** Whatever member is returned, its transcript bytes are the content of the first
      string the document itself holds under that name. */
  lemma ReturnedValueIsTheDocuments(recv: bytes, at: nat, chunks: seq<Chunk>, last: bytes, tail: bytes,
                                    ts: seq<Spaced>, trail: bytes, doc: Json, field: bytes, found: JsonMember)
    requires ServesDocument(recv, at, chunks, last, tail, ts, trail, doc) && IsName(field) && Without(field, CR)
    requires InResponse(recv, field) == Some(found)
    ensures Find(doc, field, true).Some? && Find(doc, field, true).value.Str?
    ensures Fits(found.value, recv) && Slice(recv, found.value) == Find(doc, field, true).value.content
  {
    hide ChunkedResponse, Text, Prints, StringsWithoutCr, InResponse, InBody, Find, Joined, IsName, Without, MatchesAt,
      SentInOnePiece;
    forall o | InBody(Joined(chunks), field) == Some(o) ensures Without(Slice(Joined(chunks), o.value), CR) {
      FirstValueWithoutCr(ts, trail, doc, field, o);
    }
    var d, first := FoundMemberIsOnePiece(recv, at, chunks, last, tail, field, found);
    QuotedScanFindsMember(ts, trail, doc, field);
  }

  /** Where the document holds such a string, and its member was sent in one chunk,
      it is returned. */
  lemma WholeMemberIsReturned(recv: bytes, at: nat, chunks: seq<Chunk>, last: bytes, tail: bytes,
                              ts: seq<Spaced>, trail: bytes, doc: Json, field: bytes)
    requires ServesDocument(recv, at, chunks, last, tail, ts, trail, doc) && IsName(field) && Without(field, CR)
    requires Find(doc, field, true).Some?
    requires forall m | InBody(Joined(chunks), field) == Some(m) :: InOneChunk(chunks, m.member.start, m.member.end)
    ensures InResponse(recv, field).Some? && Fits(InResponse(recv, field).value.value, recv)
    ensures Find(doc, field, true).value.Str?
    ensures Slice(recv, InResponse(recv, field).value.value) == Find(doc, field, true).value.content
  {
    hide ChunkedResponse, Text, Prints, StringsWithoutCr, InResponse, InBody, Find, Joined, IsName, Without, InOneChunk, Slice;
    QuotedScanFindsMember(ts, trail, doc, field);
    MemberInOneChunkIsFound(recv, at, chunks, last, tail, field, InBody(Joined(chunks), field).value);
    ReturnedValueIsTheDocuments(recv, at, chunks, last, tail, ts, trail, doc, field, InResponse(recv, field).value);
  }

  /** A document sent as a single chunk is always such a response, so every string
      it holds first under a name is returned under that name. */
  lemma OneChunkServesEveryMember(recv: bytes, at: nat, c: Chunk, last: bytes, tail: bytes,
                                  ts: seq<Spaced>, trail: bytes, doc: Json, field: bytes)
    requires ServesDocument(recv, at, [c], last, tail, ts, trail, doc) && IsName(field) && Without(field, CR)
    ensures match Find(doc, field, true)
            case None => InResponse(recv, field) == None
            case Some(v) =>
              v.Str? && InResponse(recv, field).Some? && Fits(InResponse(recv, field).value.value, recv) &&
              Slice(recv, InResponse(recv, field).value.value) == v.content
  {
    hide ChunkedResponse, Text, Prints, StringsWithoutCr, InResponse, InBody, Find, Joined, IsName, Without, InOneChunk, Slice;
    if InResponse(recv, field).Some? {
      ReturnedValueIsTheDocuments(recv, at, [c], last, tail, ts, trail, doc, field, InResponse(recv, field).value);
    }
    if Find(doc, field, true).Some? {
      forall m | InBody(Joined([c]), field) == Some(m) ensures InOneChunk([c], m.member.start, m.member.end) {
        OneChunkHoldsAll(c, m.member.start, m.member.end) by { FoundInside(Joined([c]), field, m); }
      }
      WholeMemberIsReturned(recv, at, [c], last, tail, ts, trail, doc, field);
    }
  }

  lemma FoundInside(body: bytes, field: bytes, m: JsonMember)
    requires InBody(body, field) == Some(m)
    ensures m.member.start < m.member.end <= |body|
  {
    hide InBody, MatchesAt, ValueAt;
    FoundIsFirstMember(body, field, m);
  }

  lemma OneChunkHoldsAll(c: Chunk, start: nat, end: nat)
    requires start < end <= |Joined([c])|
    ensures InOneChunk([c], start, end)
  {
    assert [c][1..] == [];
    assert Joined([c]) == c.data + Joined([]);
  }

  // ----- the sessions, signed -----

  /** The notary's view of a session over two layouts: the reveals opened, and one
      commitment for each committed range, in any order. */
  ghost predicate Observed(s: ObservedSession, sent: bytes, sl: Layout, recv: bytes, rl: Layout, made: seq<Made>) {
    && |sent| < U32_LIMIT && |recv| < U32_LIMIT
    && multiset(RangesMade(made, Sent)) == multiset(sl.committed)
    && multiset(RangesMade(made, Received)) == multiset(rl.committed)
    && (Openable(sl.revealed, |sent|) ==> s.sent == DirectionOf(sent, sl.revealed))
    && (Openable(rl.revealed, |recv|) ==> s.received == DirectionOf(recv, rl.revealed))
    && s.commitments == AllCommitted(made)
  }

  /** A record exists, covers both transcripts, and is what its signed bytes decode to. */
  ghost predicate Signed(keccak: bytes -> bytes32, s: ObservedSession, sent: bytes, recv: bytes, d: AttestedData) {
    && ValidSession(s) && FromObserved(keccak, s) == Ok(d)
    && Covered(d, sent, recv) && Decode(Encode(d)) == Some((d, []))
  }

  lemma HonestIsSigned(keccak: bytes -> bytes32, s: ObservedSession, sent: bytes, sl: Layout, recv: bytes, rl: Layout,
                       made: seq<Made>)
    returns (d: AttestedData)
    requires Observed(s, sent, sl, recv, rl, made)
    requires HonestDirection(sent, sl, made, Sent) && HonestDirection(recv, rl, made, Received)
    ensures HonestSession(sent, sl, recv, rl, made, s) && Signed(keccak, s, sent, recv, d)
  {
    hide Covered, AllCommitted, RangesMade, FromObserved, Encode, Decode, Normalized, RevealingLayout, EncodableBlock, Spans;
    DirectionIsValid(sent, sl, made, Sent);
    DirectionIsValid(recv, rl, made, Received);
    HonestSessionIsCovered(keccak, sent, sl, recv, rl, made, s);
    d := FromObserved(keccak, s).value;
    CoveredEncodes(d, sent, recv);
    DecodesBack(d, []);
    assert Encode(d) + [] == Encode(d);
  }

  lemma CoveredEncodes(d: AttestedData, sent: bytes, recv: bytes)
    requires Covered(d, sent, recv) && |sent| < U32_LIMIT && |recv| < U32_LIMIT
    ensures Encodable(d)
  {
    hide Tiles, CarriesTranscript, EncodableBlock;
    CoveredBlockEncodes(d.sent, sent);
    CoveredBlockEncodes(d.received, recv);
  }

  /** The block reveals the offsets of these ranges and no other. */
  ghost predicate RevealsOnly(b: DirectionBlock, rs: seq<Range>) {
    forall i :: Count(Map(b.revealed, RevealedSpan), i) > 0 <==> Count(rs, i) > 0
  }

  lemma RevealsItsLayout(b: DirectionBlock, data: bytes, l: Layout)
    requires Openable(l.revealed, |data|) && Map(b.revealed, RevealedSpan) == Normalized(l.revealed)
    ensures RevealsOnly(b, l.revealed)
  {
    hide Openable, Normalized, Map, Count;
    NormalizedIsNormal(l.revealed, |data|);
  }

  lemma RevealsPermute(b: DirectionBlock, rs: seq<Range>, qs: seq<Range>)
    requires RevealsOnly(b, rs) && multiset(rs) == multiset(qs)
    ensures RevealsOnly(b, qs)
  {
    hide Map, Count;
    forall i ensures Count(rs, i) == Count(qs, i) { CountPermutes(rs, qs, i); }
  }

  /** The token session. Whatever the two transcripts are, once both layouts exist:
      the record covers them; the request is revealed up to its secret; the response
      reveals the delimiter and the closing quote of its member and nothing else, so
      not the bearer; and exactly one commitment is framed as the bearer, over exactly
      the member's value. */
  lemma TokenSession(keccak: bytes -> bytes32, sent: bytes, secretField: Option<bytes>, sl: Layout, recv: bytes, rl: Layout,
                     made: seq<Made>, s: ObservedSession)
    returns (d: AttestedData)
    requires TokenRequest(sent, secretField) == Ok(sl) && TokenResponse(recv) == Ok(rl)
    requires Observed(s, sent, sl, recv, rl, made)
    ensures Signed(keccak, s, sent, recv, d)
    ensures exists m ::
              && InResponse(recv, ACCESS_TOKEN) == Some(m) && FramedMember(recv, ACCESS_TOKEN, m)
              && RevealsOnly(d.received, [Range(m.member.start, m.value.start), Range(m.value.end, m.member.end)])
              && multiset(Map(d.received.commitments, SpanOf))[m.value] == 1
              && forall c | c in d.received.commitments :: FramedAsBearer(d.received, c) <==> SpanOf(c) == m.value
    ensures RevealsOnly(d.sent, sl.revealed)
  {
    hide *;
    ObservedFits(s, sent, sl, recv, rl, made);
    TokenRequestIsHonest(sent, secretField, sl, made);
    TokenResponseIsHonest(recv, rl, made);
    d := HonestIsSigned(keccak, s, sent, sl, recv, rl, made);
    SignedIsValid(keccak, s, sent, recv, d);
    HonestRecord(keccak, sent, sl, recv, rl, made, s, d);
    DirectionIsValid(sent, sl, made, Sent);
    DirectionIsValid(recv, rl, made, Received);
    RevealsItsLayout(d.sent, sent, sl);
    RevealsItsLayout(d.received, recv, rl);
    TokenReveals(recv, rl);
    TokenSessionAccepted(keccak, sent, sl, recv, rl, made, s, d);
  }

  lemma TokenReveals(recv: bytes, l: Layout)
    requires TokenResponse(recv) == Ok(l)
    ensures forall m | InResponse(recv, ACCESS_TOKEN) == Some(m) ::
              l.revealed == [Range(m.member.start, m.value.start), Range(m.value.end, m.member.end)]
  {
    hide InResponse, FramedMember, Tiles, DelimiterEndsAt;
    TokenResponseFramesTheBearer(recv, l);
  }

  lemma ObservedFits(s: ObservedSession, sent: bytes, sl: Layout, recv: bytes, rl: Layout, made: seq<Made>)
    requires Observed(s, sent, sl, recv, rl, made)
    ensures |sent| < U32_LIMIT && |recv| < U32_LIMIT < USIZE_LIMIT
    ensures multiset(RangesMade(made, Sent)) == multiset(sl.committed)
    ensures multiset(RangesMade(made, Received)) == multiset(rl.committed)
  {
  }

  lemma SignedIsValid(keccak: bytes -> bytes32, s: ObservedSession, sent: bytes, recv: bytes, d: AttestedData)
    requires Signed(keccak, s, sent, recv, d)
    ensures ValidSession(s) && FromObserved(keccak, s) == Ok(d)
  {
  }

  // ----- the identity session -----

  /** The range is the content of that string. */
  ghost predicate HoldsString(s: bytes, r: Range, v: Option<Json>) {
    v.Some? && v.value.Str? && Fits(r, s) && Slice(s, r) == v.value.content
  }

  /** What a body that carries `doc` means for the scanners: its members close, and
      what is returned under a name is what the document holds first under it. */
  ghost predicate ReadsAs(recv: bytes, session: IdentitySession, doc: Json) {
    && SessionCloses(recv, session)
    && (forall m | InResponse(recv, session.idField) == Some(m) :: HoldsString(recv, m.value, Find(doc, session.idField, true)))
    && (forall m | InResponse(recv, session.handleField) == Some(m) ::
          HoldsString(recv, m.value, Find(doc, session.handleField, true)))
    && (forall r | ComputeIdSnippetRange(recv, session.idField, false) == Some(r) ::
          IsNumberOf(recv, r, Find(doc, session.idField, false)))
  }

  lemma ChunkedReadsAs(recv: bytes, at: nat, chunks: seq<Chunk>, last: bytes, tail: bytes,
                       ts: seq<Spaced>, trail: bytes, doc: Json, session: IdentitySession)
    requires ServesDocument(recv, at, chunks, last, tail, ts, trail, doc)
    requires IsName(session.idField) && IsName(session.handleField)
    requires Without(session.idField, CR) && Without(session.handleField, CR)
    ensures ReadsAs(recv, session, doc)
  {
    hide ChunkedResponse, Text, Prints, StringsWithoutCr, Joined, InResponse, ComputeIdSnippetRange, Find, IsName, Without,
      IsNumberOf, SessionCloses, Slice;
    ChunkedDocumentCloses(recv, at, chunks, last, tail, ts, trail, doc, session);
    forall f, m | (f == session.idField || f == session.handleField) && InResponse(recv, f) == Some(m)
      ensures HoldsString(recv, m.value, Find(doc, f, true))
    {
      ReturnedValueIsTheDocuments(recv, at, chunks, last, tail, ts, trail, doc, f, m);
    }
    forall r | ComputeIdSnippetRange(recv, session.idField, false) == Some(r)
      ensures IsNumberOf(recv, r, Find(doc, session.idField, false))
    {
      var d := ReturnedNumberIsTheDocuments(recv, at, chunks, last, tail, ts, trail, doc, session.idField, r);
    }
  }

  /** A response whose body is a printing of `doc`, as it is. */
  ghost predicate ServesPlainDocument(recv: bytes, at: nat, ts: seq<Spaced>, trail: bytes, doc: Json) {
    && at <= |recv| && FindResponseBodyRange(recv) == Some(Range(at, |recv|)) && !IsChunked(recv)
    && recv[at..] == Text(ts, trail) && Prints(ts, trail, doc)
  }

  lemma PlainReadsAs(recv: bytes, at: nat, ts: seq<Spaced>, trail: bytes, doc: Json, session: IdentitySession)
    requires ServesPlainDocument(recv, at, ts, trail, doc) && IsName(session.idField) && IsName(session.handleField)
    ensures ReadsAs(recv, session, doc)
  {
    hide ServesPlainDocument, InResponse, ComputeIdSnippetRange, Find, IsName, IsNumberOf, SessionCloses, HoldsString;
    PlainSessionCloses(recv, at, ts, trail, doc, session);
    forall f, m | (f == session.idField || f == session.handleField) && InResponse(recv, f) == Some(m)
      ensures HoldsString(recv, m.value, Find(doc, f, true))
    {
      PlainValue(recv, at, ts, trail, doc, f, m);
    }
    forall r | ComputeIdSnippetRange(recv, session.idField, false) == Some(r)
      ensures IsNumberOf(recv, r, Find(doc, session.idField, false))
    {
      PlainNumber(recv, at, ts, trail, doc, session.idField, r);
    }
  }

  lemma PlainSessionCloses(recv: bytes, at: nat, ts: seq<Spaced>, trail: bytes, doc: Json, session: IdentitySession)
    requires ServesPlainDocument(recv, at, ts, trail, doc) && IsName(session.idField) && IsName(session.handleField)
    ensures SessionCloses(recv, session)
  {
    hide IsChunked, FindResponseBodyRange, Text, Prints;
    PlainDocumentCloses(recv, at, ts, trail, doc, session);
  }

  lemma PlainValue(recv: bytes, at: nat, ts: seq<Spaced>, trail: bytes, doc: Json, field: bytes, m: JsonMember)
    requires ServesPlainDocument(recv, at, ts, trail, doc) && IsName(field) && InResponse(recv, field) == Some(m)
    ensures HoldsString(recv, m.value, Find(doc, field, true))
  {
    hide IsChunked, FindResponseBodyRange, Text, Prints, InBody, Find, IsName;
    QuotedScanFindsMember(ts, trail, doc, field);
    SliceOfTail(recv, at, InBody(recv[at..], field).value.value);
  }

  lemma PlainNumber(recv: bytes, at: nat, ts: seq<Spaced>, trail: bytes, doc: Json, field: bytes, r: Range)
    requires ServesPlainDocument(recv, at, ts, trail, doc) && IsName(field)
    requires ComputeIdSnippetRange(recv, field, false) == Some(r)
    ensures IsNumberOf(recv, r, Find(doc, field, false))
  {
    hide IsChunked, FindResponseBodyRange, Text, Prints, BareSnippet, Find, IsName, HoldsNumber;
    var found := BareSnippet(recv[at..], field).value;
    PrintedNumber(ts, trail, doc, field, found);
    SliceOfTail(recv, at, found);
    NumberTransfers(recv[at..], found, recv, r, Find(doc, field, false).value.text);
  }

  /** The account's id, where the layout reveals it: a string's content or a number's digits. */
  ghost predicate HoldsId(recv: bytes, session: IdentitySession, doc: Json, id: Range) {
    match session.idShape
    case JsonString =>
      (exists m :: InResponse(recv, session.idField) == Some(m) && m.member == id &&
         HoldsString(recv, m.value, Find(doc, session.idField, true)))
    case JsonInteger =>
      IsNumberOf(recv, id, Find(doc, session.idField, false))
  }

  /** What the record's response side reveals: the offsets of the id member and of the
      handle member, no other, and they hold what the document says. */
  ghost predicate RevealsIdentity(b: DirectionBlock, recv: bytes, session: IdentitySession, doc: Json, id: Range,
                                  handle: JsonMember)
  {
    && InResponse(recv, session.handleField) == Some(handle)
    && ComputeIdSnippetRange(recv, session.idField, session.idShape.JsonString?) == Some(id)
    && RevealsOnly(b, [id, handle.member])
    && HoldsString(recv, handle.value, Find(doc, session.handleField, true))
    && HoldsId(recv, session, doc, id)
  }

  lemma RevealedMembers(b: DirectionBlock, recv: bytes, session: IdentitySession, doc: Json, l: Layout)
    returns (id: Range, handle: JsonMember)
    requires IdentityResponse(recv, session) == Ok(l) && ReadsAs(recv, session, doc)
    requires Openable(l.revealed, |recv|) && Map(b.revealed, RevealedSpan) == Normalized(l.revealed)
    ensures RevealsIdentity(b, recv, session, doc, id, handle)
  {
    hide Found, Openable, Normalized, Map, Count, InResponse, Find, IsNumberOf, HoldsString, SessionCloses,
      RevealingLayout, RevealsOnly, FindResponseBodyRange;
    var at, x, y := IdentityMembers(recv, session, l);
    id, handle := Shift(x, at), InResponse(recv, session.handleField).value;
    RevealsItsLayout(b, recv, l);
    SortedReveals([id, handle.member], |recv|);
    RevealsPermute(b, l.revealed, [id, handle.member]);
  }

  lemma SortedReveals(rs: seq<Range>, len: nat)
    ensures multiset(RevealingLayout(rs, len).revealed) == multiset(rs)
  {
    SortByIsSorted(rs, StartOf);
  }

  /** The identity session over a body the scanners read as `doc`. */
  lemma IdentitySessionReads(keccak: bytes -> bytes32, sent: bytes, sl: Layout, recv: bytes, doc: Json,
                             session: IdentitySession, rl: Layout, made: seq<Made>, s: ObservedSession)
    returns (d: AttestedData, id: Range, handle: JsonMember)
    requires ReadsAs(recv, session, doc)
    requires IsName(session.idField) && IsName(session.handleField) && session.idField != session.handleField
    requires IdentityRequest(sent) == Ok(sl) && IdentityResponse(recv, session) == Ok(rl)
    requires Observed(s, sent, sl, recv, rl, made)
    ensures Signed(keccak, s, sent, recv, d) && RevealsIdentity(d.received, recv, session, doc, id, handle)
    ensures sl.committed != [] ==> BearerRequest(d.sent)
  {
    hide *;
    ObservedFits(s, sent, sl, recv, rl, made);
    ReadsCloses(recv, session, doc);
    IdentityRequestIsHonest(sent, sl, made);
    IdentityResponseIsHonest(recv, session, rl, made);
    d := HonestIsSigned(keccak, s, sent, sl, recv, rl, made);
    SignedIsValid(keccak, s, sent, recv, d);
    HonestRecord(keccak, sent, sl, recv, rl, made, s, d);
    DirectionIsValid(recv, rl, made, Received);
    id, handle := RevealedMembers(d.received, recv, session, doc, rl);
    if sl.committed != [] { IdentitySessionAccepted(keccak, sent, sl, recv, rl, made, s, d); }
  }

  lemma ReadsCloses(recv: bytes, session: IdentitySession, doc: Json)
    requires ReadsAs(recv, session, doc)
    ensures SessionCloses(recv, session)
  {
  }

  /** The identity session, over a chunked JSON document in any whitespace and any
      chunks: if the layouts exist at all, the record covers both transcripts, reveals
      of the response the id and the handle the document holds and nothing else, and
      of the request everything but the bearer. */
  lemma IdentitySessionOverJson(keccak: bytes -> bytes32, sent: bytes, sl: Layout, start: bytes, headers: seq<Header>,
                                chunks: seq<Chunk>, last: bytes, tail: bytes, ts: seq<Spaced>, trail: bytes, doc: Json,
                                session: IdentitySession, rl: Layout, made: seq<Made>, s: ObservedSession)
    returns (d: AttestedData, id: Range, handle: JsonMember)
    requires Without(start, CR) && ValidHeaders(headers)
    requires ValidChunks(chunks) && ValidLast(last) && Without(tail, QUOTE)
    requires match FirstHeader(headers, TRANSFER_ENCODING)
             case Some(i) => i < |headers| && FindFrom(headers[i].value, CHUNKED, 0).Some?
             case None => false
    requires Joined(chunks) == Text(ts, trail) && Prints(ts, trail, doc) && StringsWithoutCr(ts)
    requires IsName(session.idField) && IsName(session.handleField) && session.idField != session.handleField
    requires Without(session.idField, CR) && Without(session.handleField, CR)
    requires IdentityRequest(sent) == Ok(sl)
    requires IdentityResponse(Message(start, headers, Framed(chunks, last, tail)), session) == Ok(rl)
    requires Observed(s, sent, sl, Message(start, headers, Framed(chunks, last, tail)), rl, made)
    ensures var recv := Message(start, headers, Framed(chunks, last, tail));
            Signed(keccak, s, sent, recv, d) && RevealsIdentity(d.received, recv, session, doc, id, handle)
    ensures sl.committed != [] ==> BearerRequest(d.sent)
  {
    hide *;
    var recv, raw := Message(start, headers, Framed(chunks, last, tail)), Framed(chunks, last, tail);
    ObservedFits(s, sent, sl, recv, rl, made);
    PrintedChunkedResponse(start, headers, chunks, last, tail);
    ServedChunked(recv, |recv| - |raw|, chunks, last, tail, ts, trail, doc);
    ChunkedReadsAs(recv, |recv| - |raw|, chunks, last, tail, ts, trail, doc, session);
    d, id, handle := IdentitySessionReads(keccak, sent, sl, recv, doc, session, rl, made, s);
  }

  lemma ServedChunked(recv: bytes, at: nat, chunks: seq<Chunk>, last: bytes, tail: bytes,
                      ts: seq<Spaced>, trail: bytes, doc: Json)
    requires ChunkedResponse(recv, at, chunks, last, tail)
    requires Joined(chunks) == Text(ts, trail) && Prints(ts, trail, doc) && StringsWithoutCr(ts)
    ensures ServesDocument(recv, at, chunks, last, tail, ts, trail, doc)
  {
  }

  /** And over one sent plain. */
  lemma IdentitySessionOverPlainJson(keccak: bytes -> bytes32, sent: bytes, sl: Layout, start: bytes, headers: seq<Header>,
                                     ts: seq<Spaced>, trail: bytes, doc: Json, session: IdentitySession, rl: Layout,
                                     made: seq<Made>, s: ObservedSession)
    returns (d: AttestedData, id: Range, handle: JsonMember)
    requires Without(start, CR) && ValidHeaders(headers) && SaysPlain(headers)
    requires Prints(ts, trail, doc) && (FirstHeader(headers, TRANSFER_ENCODING).None? ==> StringsWithoutCr(ts))
    requires IsName(session.idField) && IsName(session.handleField) && session.idField != session.handleField
    requires IdentityRequest(sent) == Ok(sl) && IdentityResponse(Message(start, headers, Text(ts, trail)), session) == Ok(rl)
    requires Observed(s, sent, sl, Message(start, headers, Text(ts, trail)), rl, made)
    ensures var recv := Message(start, headers, Text(ts, trail));
            Signed(keccak, s, sent, recv, d) && RevealsIdentity(d.received, recv, session, doc, id, handle)
    ensures sl.committed != [] ==> BearerRequest(d.sent)
  {
    hide *;
    var recv, raw := Message(start, headers, Text(ts, trail)), Text(ts, trail);
    BodyParsesBack(start, headers, raw);
    PlainIffHeadersSayPlain(start, headers, ts, trail, doc);
    ServedPlain(recv, |recv| - |raw|, ts, trail, doc);
    PlainReadsAs(recv, |recv| - |raw|, ts, trail, doc, session);
    d, id, handle := IdentitySessionReads(keccak, sent, sl, recv, doc, session, rl, made, s);
  }

  lemma ServedPlain(recv: bytes, at: nat, ts: seq<Spaced>, trail: bytes, doc: Json)
    requires at <= |recv| && FindResponseBodyRange(recv) == Some(Range(at, |recv|)) && !IsChunked(recv)
    requires recv[at..] == Text(ts, trail) && Prints(ts, trail, doc)
    ensures ServesPlainDocument(recv, at, ts, trail, doc)
  {
  }

  // ----- the bearer of a document -----

  /** Of the layout's commitments exactly one is preceded by the delimiter, and it covers
      the content of the first `access_token` string the document holds. */
  ghost predicate CommitsTheToken(recv: bytes, l: Layout, doc: Json) {
    exists c :: c in l.committed && DelimiterEndsAt(recv, ACCESS_TOKEN, c.start)
      && HoldsString(recv, c, Find(doc, ACCESS_TOKEN, true))
      && forall o | o in l.committed && o != c :: !DelimiterEndsAt(recv, ACCESS_TOKEN, o.start)
  }

  lemma TokenIsCommitted(recv: bytes, l: Layout, doc: Json)
    requires TokenResponse(recv) == Ok(l)
    requires forall m | InResponse(recv, ACCESS_TOKEN) == Some(m) :: HoldsString(recv, m.value, Find(doc, ACCESS_TOKEN, true))
    ensures CommitsTheToken(recv, l, doc)
  {
    hide TokenResponse, InResponse, FramedMember, Tiles, DelimiterEndsAt, Find, HoldsString;
    TokenResponseFramesTheBearer(recv, l);
    var m :| InResponse(recv, ACCESS_TOKEN) == Some(m) && m.value in l.committed &&
             forall c | c in l.committed :: DelimiterEndsAt(recv, ACCESS_TOKEN, c.start) <==> c == m.value;
  }

  /** The token session over JSON, in any chunks. */
  lemma BearerIsTheDocuments(recv: bytes, at: nat, chunks: seq<Chunk>, last: bytes, tail: bytes,
                             ts: seq<Spaced>, trail: bytes, doc: Json, l: Layout)
    requires ServesDocument(recv, at, chunks, last, tail, ts, trail, doc) && TokenResponse(recv) == Ok(l)
    ensures CommitsTheToken(recv, l, doc)
  {
    hide ServesDocument, TokenResponse, InResponse, CommitsTheToken, Find, IsName, Slice;
    AccessTokenIsName();
    AccessTokenWithoutCr();
    forall m | InResponse(recv, ACCESS_TOKEN) == Some(m) ensures HoldsString(recv, m.value, Find(doc, ACCESS_TOKEN, true)) {
      ReturnedValueIsTheDocuments(recv, at, chunks, last, tail, ts, trail, doc, ACCESS_TOKEN, m);
    }
    TokenIsCommitted(recv, l, doc);
  }

  /** And sent plain. */
  lemma PlainBearerIsTheDocuments(recv: bytes, at: nat, ts: seq<Spaced>, trail: bytes, doc: Json, l: Layout)
    requires ServesPlainDocument(recv, at, ts, trail, doc) && TokenResponse(recv) == Ok(l)
    ensures CommitsTheToken(recv, l, doc)
  {
    hide ServesPlainDocument, TokenResponse, InResponse, CommitsTheToken, Find, IsName, HoldsString;
    AccessTokenIsName();
    forall m | InResponse(recv, ACCESS_TOKEN) == Some(m) ensures HoldsString(recv, m.value, Find(doc, ACCESS_TOKEN, true)) {
      PlainValue(recv, at, ts, trail, doc, ACCESS_TOKEN, m);
    }
    TokenIsCommitted(recv, l, doc);
  }

  lemma AccessTokenWithoutCr()
    ensures Without(ACCESS_TOKEN, CR)
  {
  }
}
