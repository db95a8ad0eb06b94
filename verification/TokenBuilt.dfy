/** When the token response's layout is built: exactly when its member is returned with a
    value, and over a document, when it holds a token and the server sent it in one piece. */
module TokenBuilt {
  import opened Wrappers
  import opened Octets
  import opened Chunked
  import opened Offsets
  import opened JsonScan
  import opened JsonText
  import opened JsonDocument
  import opened Layouts
  import opened Response
  import opened Ceremony
  import opened EndToEnd
  import opened IdentityBuilt

  /** Built if and only if a member of that name is returned with a value that is not
      empty, of whatever length; and otherwise the error names the field. */
  lemma TokenIsBuiltExactly(recv: bytes)
    ensures TokenResponse(recv).Ok? <==>
            exists m :: InResponse(recv, ACCESS_TOKEN) == Some(m) && m.value.start < m.value.end
    ensures TokenResponse(recv).Err? ==> TokenResponse(recv) == Err(MissingField(ACCESS_TOKEN))
  {
    hide InResponse, RevealingLayout;
  }

  /** A token of the document: its first string of that name, unless empty. */
  predicate HasToken(doc: Json) {
    var v := Find(doc, ACCESS_TOKEN, true);
    v.Some? && v.value.Str? && v.value.content != []
  }

  /** A returned member's value is as long as its range. */
  lemma ValueOfToken(recv: bytes, m: JsonMember, doc: Json)
    requires HoldsString(recv, m.value, Find(doc, ACCESS_TOKEN, true))
    ensures HasToken(doc) <==> m.value.start < m.value.end
  {
    hide Find;
    assert |Slice(recv, m.value)| == m.value.end - m.value.start;
  }

  lemma TokenBuiltAsFound(recv: bytes, doc: Json)
    requires forall m | InResponse(recv, ACCESS_TOKEN) == Some(m) :: HoldsString(recv, m.value, Find(doc, ACCESS_TOKEN, true))
    ensures TokenResponse(recv).Ok? <==> InResponse(recv, ACCESS_TOKEN).Some? && HasToken(doc)
  {
    hide InResponse, RevealingLayout, Find, HasToken, HoldsString;
    if InResponse(recv, ACCESS_TOKEN).Some? { ValueOfToken(recv, InResponse(recv, ACCESS_TOKEN).value, doc); }
  }

  lemma TokenIsFound(doc: Json)
    requires HasToken(doc)
    ensures Find(doc, ACCESS_TOKEN, true).Some?
  {
  }

  /** Sent plain: if and only if the document has a token. */
  lemma PlainTokenIsBuiltExactly(recv: bytes, at: nat, ts: seq<Spaced>, trail: bytes, doc: Json)
    requires ServesPlainDocument(recv, at, ts, trail, doc)
    ensures TokenResponse(recv).Ok? <==> HasToken(doc)
  {
    hide ServesPlainDocument, Prints, Text, InResponse, TokenResponse, InBody, Find, HasToken, IsName, HoldsString;
    AccessTokenIsName();
    forall m | InResponse(recv, ACCESS_TOKEN) == Some(m) ensures HoldsString(recv, m.value, Find(doc, ACCESS_TOKEN, true)) {
      PlainValue(recv, at, ts, trail, doc, ACCESS_TOKEN, m);
    }
    TokenBuiltAsFound(recv, doc);
    PlainIsPrinted(recv, at, ts, trail, doc);
    QuotedScanFindsMember(ts, trail, doc, ACCESS_TOKEN);
    PlainScans(recv, at, ts, trail, doc, ACCESS_TOKEN);
    if HasToken(doc) { TokenIsFound(doc); }
  }

  /** Sent chunked: only then, and always then if the member was sent in one chunk. */
  lemma ChunkedTokenIsBuilt(recv: bytes, at: nat, chunks: seq<Chunk>, last: bytes, tail: bytes,
                            ts: seq<Spaced>, trail: bytes, doc: Json)
    requires ServesDocument(recv, at, chunks, last, tail, ts, trail, doc)
    ensures TokenResponse(recv).Ok? ==> HasToken(doc)
    ensures HasToken(doc) &&
            (forall m | InBody(Joined(chunks), ACCESS_TOKEN) == Some(m) :: InOneChunk(chunks, m.member.start, m.member.end)) ==>
              TokenResponse(recv).Ok?
  {
    hide ServesDocument, InResponse, TokenResponse, InBody, Find, Joined, IsName, Without, InOneChunk, HasToken, HoldsString;
    AccessTokenIsName();
    AccessTokenWithoutCr();
    forall m | InResponse(recv, ACCESS_TOKEN) == Some(m) ensures HoldsString(recv, m.value, Find(doc, ACCESS_TOKEN, true)) {
      ReturnedHolds(recv, at, chunks, last, tail, ts, trail, doc, m);
    }
    TokenBuiltAsFound(recv, doc);
    MemberReturned(recv, at, chunks, last, tail, ts, trail, doc, ACCESS_TOKEN);
    if HasToken(doc) { TokenIsFound(doc); }
  }

  lemma ReturnedHolds(recv: bytes, at: nat, chunks: seq<Chunk>, last: bytes, tail: bytes,
                      ts: seq<Spaced>, trail: bytes, doc: Json, m: JsonMember)
    requires ServesDocument(recv, at, chunks, last, tail, ts, trail, doc) && InResponse(recv, ACCESS_TOKEN) == Some(m)
    ensures HoldsString(recv, m.value, Find(doc, ACCESS_TOKEN, true))
  {
    hide ServesDocument, InResponse, Find, IsName, Without;
    AccessTokenIsName();
    AccessTokenWithoutCr();
    ReturnedValueIsTheDocuments(recv, at, chunks, last, tail, ts, trail, doc, ACCESS_TOKEN, m);
  }

  /** Sent as one chunk: if and only if. */
  lemma OneChunkTokenIsBuiltExactly(recv: bytes, at: nat, c: Chunk, last: bytes, tail: bytes,
                                    ts: seq<Spaced>, trail: bytes, doc: Json)
    requires ServesDocument(recv, at, [c], last, tail, ts, trail, doc)
    ensures TokenResponse(recv).Ok? <==> HasToken(doc)
  {
    hide ServesDocument, TokenResponse, HasToken, InOneChunk, InBody, Joined;
    forall m | InBody(Joined([c]), ACCESS_TOKEN) == Some(m) ensures InOneChunk([c], m.member.start, m.member.end) {
      FoundInside(Joined([c]), ACCESS_TOKEN, m);
      OneChunkHoldsAll(c, m.member.start, m.member.end);
    }
    ChunkedTokenIsBuilt(recv, at, [c], last, tail, ts, trail, doc);
  }
}
