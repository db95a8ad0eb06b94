/** When the identity layout is built at all: the document holds both members in their
    shapes, and the server sent each in one piece. */
module IdentityBuilt {
  import opened Wrappers
  import opened Octets
  import opened Chunked
  import opened Offsets
  import opened JsonScan
  import opened JsonText
  import opened JsonDocument
  import opened Response
  import opened Contiguity
  import opened Ceremony
  import opened IdentityDocument
  import opened BareNumbers
  import opened EndToEnd

  /** The document holds an id of the session's shape, and a handle. */
  predicate HasIdentity(doc: Json, session: IdentitySession) {
    && Find(doc, session.handleField, true).Some?
    && match session.idShape
       case JsonString => Find(doc, session.idField, true).Some?
       case JsonInteger => IsNumber(Find(doc, session.idField, false))
  }

  /** The scanners' answers on the body, by shape. */
  predicate ScansIdentity(body: bytes, session: IdentitySession) {
    && InBody(body, session.handleField).Some?
    && match session.idShape
       case JsonString => InBody(body, session.idField).Some?
       case JsonInteger => BareSnippet(body, session.idField).Some?
  }

  lemma ScansWhatItHas(ts: seq<Spaced>, trail: bytes, doc: Json, session: IdentitySession)
    requires Prints(ts, trail, doc) && IsName(session.idField) && IsName(session.handleField)
    ensures ScansIdentity(Text(ts, trail), session) <==> HasIdentity(doc, session)
  {
    hide Text, Prints, InBody, BareSnippet, Find, IsName, CanonicalNat, IsBare, DigitRun, ValueAt, Agree;
    QuotedScanFindsMember(ts, trail, doc, session.handleField);
    QuotedScanFindsMember(ts, trail, doc, session.idField);
    BareScanFindsMember(ts, trail, doc, session.idField);
  }

  /** The layout is built when both of its scans return. */
  lemma BuiltIffFound(recv: bytes, session: IdentitySession)
    ensures IdentityResponse(recv, session).Ok? <==>
            InResponse(recv, session.handleField).Some? &&
            ComputeIdSnippetRange(recv, session.idField, session.idShape.JsonString?).Some?
    ensures IdentityResponse(recv, session).Err? ==>
              IdentityResponse(recv, session).error ==
              MissingField(if ComputeIdSnippetRange(recv, session.idField, session.idShape.JsonString?).None?
                           then session.idField else session.handleField)
  {
    hide InResponse, ComputeIdSnippetRange;
  }

  lemma QuotedIdIsMember(recv: bytes, field: bytes)
    ensures ComputeIdSnippetRange(recv, field, true).Some? <==> InResponse(recv, field).Some?
  {
    hide InResponse;
  }

  /** Sent plain: the layout is built if and only if the document has both. */
  lemma PlainIdentityIsBuiltExactly(recv: bytes, at: nat, ts: seq<Spaced>, trail: bytes, doc: Json, session: IdentitySession)
    requires ServesPlainDocument(recv, at, ts, trail, doc) && IsName(session.idField) && IsName(session.handleField)
    ensures IdentityResponse(recv, session).Ok? <==> HasIdentity(doc, session)
  {
    hide ServesPlainDocument, Prints, Text, InResponse, ComputeIdSnippetRange, IdentityResponse, InBody, BareSnippet, HasIdentity,
      IsName;
    BuiltIffFound(recv, session);
    PlainIsPrinted(recv, at, ts, trail, doc);
    ScansWhatItHas(ts, trail, doc, session);
    PlainScans(recv, at, ts, trail, doc, session.handleField);
    PlainScans(recv, at, ts, trail, doc, session.idField);
    QuotedIdIsMember(recv, session.idField);
  }

  lemma PlainIsPrinted(recv: bytes, at: nat, ts: seq<Spaced>, trail: bytes, doc: Json)
    requires ServesPlainDocument(recv, at, ts, trail, doc)
    ensures Prints(ts, trail, doc)
  {
  }

  lemma PlainScans(recv: bytes, at: nat, ts: seq<Spaced>, trail: bytes, doc: Json, field: bytes)
    requires ServesPlainDocument(recv, at, ts, trail, doc)
    ensures InResponse(recv, field).Some? <==> InBody(Text(ts, trail), field).Some?
    ensures ComputeIdSnippetRange(recv, field, false).Some? <==> BareSnippet(Text(ts, trail), field).Some?
  {
    hide Prints, Text, InBody, BareSnippet, IsChunked, FindResponseBodyRange;
  }

  /** Each member the layout wants was sent in one chunk. */
  ghost predicate SentWhole(chunks: seq<Chunk>, session: IdentitySession) {
    && (forall m | InBody(Joined(chunks), session.handleField) == Some(m) :: InOneChunk(chunks, m.member.start, m.member.end))
    && match session.idShape
       case JsonString =>
         forall m | InBody(Joined(chunks), session.idField) == Some(m) :: InOneChunk(chunks, m.member.start, m.member.end)
       case JsonInteger =>
         forall r | BareSnippet(Joined(chunks), session.idField) == Some(r) :: InOneChunk(chunks, r.start, r.end)
  }

  /** Sent chunked: a document without both never has a layout, and one with both, each
      sent in one chunk, always has. */
  lemma ChunkedIdentityIsBuilt(recv: bytes, at: nat, chunks: seq<Chunk>, last: bytes, tail: bytes,
                               ts: seq<Spaced>, trail: bytes, doc: Json, session: IdentitySession)
    requires ServesDocument(recv, at, chunks, last, tail, ts, trail, doc)
    requires IsName(session.idField) && IsName(session.handleField)
    requires Without(session.idField, CR) && Without(session.handleField, CR)
    ensures IdentityResponse(recv, session).Ok? ==> HasIdentity(doc, session)
    ensures HasIdentity(doc, session) && SentWhole(chunks, session) ==> IdentityResponse(recv, session).Ok?
  {
    hide ServesDocument, Prints, Text, InResponse, ComputeIdSnippetRange, IdentityResponse, InBody, BareSnippet, IsName, Without,
      Joined, Find, IsNumber, InOneChunk;
    BuiltIffFound(recv, session);
    QuotedIdIsMember(recv, session.idField);
    MemberReturned(recv, at, chunks, last, tail, ts, trail, doc, session.handleField);
    match session.idShape {
      case JsonString => MemberReturned(recv, at, chunks, last, tail, ts, trail, doc, session.idField);
      case JsonInteger => NumberReturned(recv, at, chunks, last, tail, ts, trail, doc, session.idField);
    }
  }

  lemma MemberReturned(recv: bytes, at: nat, chunks: seq<Chunk>, last: bytes, tail: bytes,
                       ts: seq<Spaced>, trail: bytes, doc: Json, field: bytes)
    requires ServesDocument(recv, at, chunks, last, tail, ts, trail, doc) && IsName(field) && Without(field, CR)
    ensures InResponse(recv, field).Some? ==> Find(doc, field, true).Some?
    ensures Find(doc, field, true).Some? &&
            (forall m | InBody(Joined(chunks), field) == Some(m) :: InOneChunk(chunks, m.member.start, m.member.end)) ==>
              InResponse(recv, field).Some?
  {
    hide ServesDocument, InResponse, InBody, Find, Joined, IsName, Without, InOneChunk, Slice;
    if InResponse(recv, field).Some? {
      ReturnedValueIsTheDocuments(recv, at, chunks, last, tail, ts, trail, doc, field, InResponse(recv, field).value);
    } else if Find(doc, field, true).Some? &&
              forall m | InBody(Joined(chunks), field) == Some(m) :: InOneChunk(chunks, m.member.start, m.member.end) {
      WholeMemberIsReturned(recv, at, chunks, last, tail, ts, trail, doc, field);
    }
  }

  lemma NumberReturned(recv: bytes, at: nat, chunks: seq<Chunk>, last: bytes, tail: bytes,
                       ts: seq<Spaced>, trail: bytes, doc: Json, field: bytes)
    requires ServesDocument(recv, at, chunks, last, tail, ts, trail, doc) && IsName(field) && Without(field, CR)
    ensures ComputeIdSnippetRange(recv, field, false).Some? ==> IsNumber(Find(doc, field, false))
    ensures IsNumber(Find(doc, field, false)) &&
            (forall r | BareSnippet(Joined(chunks), field) == Some(r) :: InOneChunk(chunks, r.start, r.end)) ==>
              ComputeIdSnippetRange(recv, field, false).Some?
  {
    hide ChunkedResponse, Prints, Text, StringsWithoutCr, ComputeIdSnippetRange, BareSnippet, Find, Joined, IsName, Without,
      InOneChunk, SentInOnePiece, HoldsNumber, CanonicalNat, IsBare, DigitRun, ValueAt, Agree;
    if ComputeIdSnippetRange(recv, field, false).Some? {
      var d := ReturnedNumberIsTheDocuments(recv, at, chunks, last, tail, ts, trail, doc, field,
                                            ComputeIdSnippetRange(recv, field, false).value);
    } else if IsNumber(Find(doc, field, false)) &&
              forall r | BareSnippet(Joined(chunks), field) == Some(r) :: InOneChunk(chunks, r.start, r.end) {
      BareScanFindsMember(ts, trail, doc, field);
      BareInOneChunkIsFound(recv, at, chunks, last, tail, field, BareSnippet(Joined(chunks), field).value);
    }
  }

  /** Sent as one chunk: if and only if. */
  lemma OneChunkIdentityIsBuiltExactly(recv: bytes, at: nat, c: Chunk, last: bytes, tail: bytes,
                                       ts: seq<Spaced>, trail: bytes, doc: Json, session: IdentitySession)
    requires ServesDocument(recv, at, [c], last, tail, ts, trail, doc)
    requires IsName(session.idField) && IsName(session.handleField)
    requires Without(session.idField, CR) && Without(session.handleField, CR)
    ensures IdentityResponse(recv, session).Ok? <==> HasIdentity(doc, session)
  {
    hide ServesDocument, IdentityResponse, HasIdentity, IsName, Without, InOneChunk, InBody, BareSnippet, Joined;
    forall f, m | InBody(Joined([c]), f) == Some(m) ensures InOneChunk([c], m.member.start, m.member.end) {
      FoundInside(Joined([c]), f, m);
      OneChunkHoldsAll(c, m.member.start, m.member.end);
    }
    forall r | BareSnippet(Joined([c]), session.idField) == Some(r) ensures InOneChunk([c], r.start, r.end) {
      NumberInside(Joined([c]), session.idField, r);
      OneChunkHoldsAll(c, r.start, r.end);
    }
    ChunkedIdentityIsBuilt(recv, at, [c], last, tail, ts, trail, doc, session);
  }

  lemma NumberInside(body: bytes, field: bytes, r: Range)
    requires BareSnippet(body, field) == Some(r)
    ensures r.start < r.end <= |body|
  {
    hide BareSnippet, MatchesAt;
    FoundIsFirstBare(body, field, r);
    BareMatches(body, field, r);
  }
}
