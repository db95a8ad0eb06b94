/** The join: a ceremony layout, an honest session over it, and the rules a reader
    of the signed record applies to what comes out. */
module SessionRecords {
  import opened Wrappers
  import opened Octets
  import opened Ranges
  import opened Layouts
  import opened JsonScan
  import opened JsonText
  import opened Response
  import opened Record
  import opened Attest
  import opened Ceremony
  import opened Identity
  import opened Coverage

  // ----- reading a block -----

  // A revealed range of an honest layout that touches no other is in the record as it stands.
  lemma RevealedInRecord(b: DirectionBlock, data: bytes, r: Range)
    requires CarriesTranscript(b, data) && r in Map(b.revealed, RevealedSpan)
    ensures exists i :: 0 <= i < |b.revealed| && b.revealed[i].start == r.start && r.start <= r.end <= |data| &&
              b.revealed[i].data == data[r.start..r.end]
  {
    hide Map;
    var i :| 0 <= i < |b.revealed| && Map(b.revealed, RevealedSpan)[i] == r;
    assert RevealedSpan(b.revealed[i]) == r;
  }

  lemma TwoApartNormalize(a: Range, b: Range)
    requires a.start < a.end < b.start < b.end
    ensures Normalized([a, b]) == [a, b]
  {
    assert [a, b][1..] == [b] && [b][1..] == [];
    assert SortBy([], StartOf) == [];
    assert SortBy([b], StartOf) == [b];
    assert SortBy([a, b], StartOf) == [a, b];
    assert Inhabited([b]) == [b] && Inhabited([a, b]) == [a, b];
    assert Merge(b, []) == [b];
  }

  // ----- the token response -----

  /** What a reader demands of the commitment it takes for the bearer: a revealed
      range ends where it begins, with the delimiter at its end. */
  ghost predicate FramedAsBearer(b: DirectionBlock, c: RangeCommitment) {
    exists i :: 0 <= i < |b.revealed| && b.revealed[i].start + |b.revealed[i].data| == c.start &&
      DelimiterEndsAt(b.revealed[i].data, ACCESS_TOKEN, |b.revealed[i].data|)
  }

  lemma DelimiterInSlice(s: bytes, lo: nat, hi: nat, field: bytes)
    requires lo <= hi <= |s| && DelimiterEndsAt(s[lo..hi], field, hi - lo)
    ensures DelimiterEndsAt(s, field, hi)
  {
    var part := s[lo..hi];
    var a, c :| Delimits(part, field, a, c, hi - lo);
    assert forall i | lo <= i < hi :: s[i] == part[i - lo];
    assert Delimits(s, field, lo + a, lo + c, hi);
  }

  lemma DelimiterOfSlice(s: bytes, lo: nat, c: nat, hi: nat, field: bytes)
    requires lo <= hi <= |s| && Delimits(s, field, lo, c, hi)
    ensures DelimiterEndsAt(s[lo..hi], field, hi - lo)
  {
    var part := s[lo..hi];
    assert forall i | 0 <= i < hi - lo :: part[i] == s[i + lo];
    assert Delimits(part, field, 0, c - lo, hi - lo);
  }

  /** In the record of a token response, exactly one commitment is framed as the
      bearer, and it covers exactly the member's value. */
  lemma TokenRecordFramesOneBearer(recv: bytes, l: Layout, made: seq<Made>, b: DirectionBlock)
    requires TokenResponse(recv) == Ok(l) && HonestDirection(recv, l, made, Received)
    requires CarriesTranscript(b, recv) && Map(b.revealed, RevealedSpan) == Normalized(l.revealed)
    requires multiset(Map(b.commitments, SpanOf)) == multiset(l.committed)
    ensures exists m ::
              && InResponse(recv, ACCESS_TOKEN) == Some(m) && FramedMember(recv, ACCESS_TOKEN, m)
              && multiset(Map(b.commitments, SpanOf))[m.value] == 1
              && forall c | c in b.commitments :: FramedAsBearer(b, c) <==> SpanOf(c) == m.value
  {
    hide TokenResponse, InResponse, FramedMember, Map, Normalized, HonestDirection, DelimiterEndsAt, CarriesTranscript,
      Tiles, FramedAsBearer;
    TokenResponseFramesTheBearer(recv, l);
    var m :| InResponse(recv, ACCESS_TOKEN) == Some(m) && FramedMember(recv, ACCESS_TOKEN, m)
             && m.value.start < m.value.end
             && l.revealed == [Range(m.member.start, m.value.start), Range(m.value.end, m.member.end)]
             && m.value in l.committed
             && (forall c | c in l.committed :: DelimiterEndsAt(recv, ACCESS_TOKEN, c.start) <==> c == m.value)
             && Tiles(l.revealed + l.committed, |recv|);
    MemberBounds(recv, ACCESS_TOKEN, m);
    TwoApartNormalize(l.revealed[0], l.revealed[1]);
    CommittedOnce(recv, l, made, m.value);
    SameElements(Map(b.commitments, SpanOf), l.committed);
    forall c | c in b.commitments ensures FramedAsBearer(b, c) <==> SpanOf(c) == m.value {
      SpanIsCommitted(b, c);
      if FramedAsBearer(b, c) { FramingIsInTranscript(b, recv, c); }
      if SpanOf(c) == m.value { ValueIsFramed(b, recv, m, c); }
    }
  }

  lemma SpanIsCommitted(b: DirectionBlock, c: RangeCommitment)
    requires c in b.commitments
    ensures SpanOf(c) in Map(b.commitments, SpanOf)
  {
    hide Map;
    var k :| 0 <= k < |b.commitments| && b.commitments[k] == c;
    assert Map(b.commitments, SpanOf)[k] == SpanOf(c);
  }

  // A non-empty range is not committed twice.
  lemma CommittedOnce(data: bytes, l: Layout, made: seq<Made>, r: Range)
    requires HonestDirection(data, l, made, Received) && r in l.committed && r.start < r.end
    ensures multiset(l.committed)[r] == 1
  {
    hide RangesMade, RevealingLayout, Openable, Count;
    HonestPartitions(data, l, made, Received);
    CountJoin(l.revealed, l.committed, r.start);
    assert Count(l.revealed + l.committed, r.start) == 1;
    CountAtLeast(l.committed, r);
  }

  lemma {:induction false} CountAtLeast(rs: seq<Range>, r: Range)
    requires r.start < r.end
    ensures Count(rs, r.start) >= multiset(rs)[r]
  {
    if rs != [] {
      HeadAndRest(rs);
      CountAtLeast(rs[1..], r);
    }
  }

  lemma FramingIsInTranscript(b: DirectionBlock, recv: bytes, c: RangeCommitment)
    requires FramedAsBearer(b, c) && CarriesTranscript(b, recv)
    ensures DelimiterEndsAt(recv, ACCESS_TOKEN, c.start)
  {
    hide DelimiterEndsAt;
    var i :| 0 <= i < |b.revealed| && b.revealed[i].start + |b.revealed[i].data| == c.start &&
             DelimiterEndsAt(b.revealed[i].data, ACCESS_TOKEN, |b.revealed[i].data|);
    DelimiterInSlice(recv, b.revealed[i].start, c.start, ACCESS_TOKEN);
  }

  lemma ValueIsFramed(b: DirectionBlock, recv: bytes, m: JsonMember, c: RangeCommitment)
    requires FramedMember(recv, ACCESS_TOKEN, m) && CarriesTranscript(b, recv)
    requires Range(m.member.start, m.value.start) in Map(b.revealed, RevealedSpan) && c.start == m.value.start
    ensures FramedAsBearer(b, c)
  {
    hide Map, DelimiterEndsAt, Delimits, CarriesTranscript;
    RevealedInRecord(b, recv, Range(m.member.start, m.value.start));
    DelimiterOfSlice(recv, m.member.start, ColonAt(recv, ACCESS_TOKEN, m.member.start), m.value.start, ACCESS_TOKEN);
  }

  // ----- the identity request -----

  predicate EndsWith(s: bytes, suffix: bytes) { |suffix| <= |s| && s[|s| - |suffix|..] == suffix }

  predicate StartsWith(s: bytes, prefix: bytes) { |prefix| <= |s| && s[..|prefix|] == prefix }

  /** The rules for the request that carries the bearer: one commitment, the header
      prefix revealed up to it from offset zero, CRLF revealed right after it. */
  ghost predicate BearerRequest(b: DirectionBlock) {
    && |b.commitments| == 1
    && (exists i :: 0 <= i < |b.revealed| && b.revealed[i].start == 0 &&
          |b.revealed[i].data| == b.commitments[0].start && EndsWith(b.revealed[i].data, BEARER_PREFIX))
    && (exists i :: 0 <= i < |b.revealed| && b.revealed[i].start == b.commitments[0].end &&
          StartsWith(b.revealed[i].data, CRLF))
  }

  /** In the record of an identity request whose bearer is not empty, they hold. */
  lemma IdentityRequestRecord(sent: bytes, l: Layout, b: DirectionBlock)
    requires IdentityRequest(sent) == Ok(l) && l.committed != []
    requires CarriesTranscript(b, sent) && Map(b.revealed, RevealedSpan) == Normalized(l.revealed)
    requires multiset(Map(b.commitments, SpanOf)) == multiset(l.committed)
    ensures BearerRequest(b)
  {
    hide IdentityRequest, Map, Normalized, Tiles, CarriesTranscript, OccursAt, EndsWith, StartsWith;
    IdentityRequestCommitsTheBearer(sent);
    var bearer := Range(l.revealed[0].end, l.revealed[1].start);
    assert l.revealed == [l.revealed[0], l.revealed[1]];
    OccursFits(sent, CRLF, bearer.end);
    TwoApartNormalize(l.revealed[0], l.revealed[1]);
    SameElements(Map(b.commitments, SpanOf), l.committed);
    assert SpanOf(b.commitments[0]) == bearer by { assert Map(b.commitments, SpanOf)[0] in Map(b.commitments, SpanOf); }
    assert l.revealed[0] in Normalized(l.revealed) && l.revealed[1] in Normalized(l.revealed);
    RevealedInRecord(b, sent, l.revealed[0]);
    RevealedInRecord(b, sent, l.revealed[1]);
    PrefixAtEnd(sent, bearer.start);
    CrlfAtStart(sent, bearer.end);
  }

  lemma PrefixAtEnd(sent: bytes, end: nat)
    requires |BEARER_PREFIX| <= end && OccursAt(sent, BEARER_PREFIX, end - |BEARER_PREFIX|)
    ensures end <= |sent| && EndsWith(sent[0..end], BEARER_PREFIX)
  {
    var n := |BEARER_PREFIX|;
    AgreeIsSliceEquality(sent, end - n, BEARER_PREFIX, 0, n);
    assert sent[0..end][end - n..] == sent[end - n..end];
    assert BEARER_PREFIX[0..n] == BEARER_PREFIX;
  }

  lemma CrlfAtStart(sent: bytes, start: nat)
    requires OccursAt(sent, CRLF, start)
    ensures start + 2 <= |sent| && StartsWith(sent[start..|sent|], CRLF)
  {
    AgreeIsSliceEquality(sent, start, CRLF, 0, 2);
    assert sent[start..|sent|][..2] == sent[start..start + 2];
    assert CRLF[0..2] == CRLF;
  }

  // ----- whole sessions -----

  /** The block facts of an honest session, read off its record. */
  lemma HonestRecord(keccak: bytes -> bytes32, sent: bytes, sl: Layout, recv: bytes, rl: Layout, made: seq<Made>,
                     s: ObservedSession, d: AttestedData)
    requires HonestSession(sent, sl, recv, rl, made, s) && ValidSession(s) && FromObserved(keccak, s) == Ok(d)
    ensures Covered(d, sent, recv)
    ensures Map(d.sent.revealed, RevealedSpan) == Normalized(sl.revealed)
    ensures multiset(Map(d.sent.commitments, SpanOf)) == multiset(sl.committed)
    ensures Map(d.received.revealed, RevealedSpan) == Normalized(rl.revealed)
    ensures multiset(Map(d.received.commitments, SpanOf)) == multiset(rl.committed)
  {
    hide HonestDirection, AllCommitted, Tiles, CarriesTranscript, BlockFromObserved, AuthorityIdOf, DirectionOf, Map, Normalized,
      FromObserved;
    HonestSessionIsCovered(keccak, sent, sl, recv, rl, made, s);
    DirectionIsValid(sent, sl, made, Sent);
    DirectionIsValid(recv, rl, made, Received);
    forall m | m in made ensures m.range.start < m.range.end < U32_LIMIT {
      if m.direction == Sent { MadeFits(sent, sl, made, m); } else { MadeFits(recv, rl, made, m); }
    }
    HonestBlock(s, Sent, sent, sl, made);
    HonestBlock(s, Received, recv, rl, made);
  }

  /** The token session: the record is covered, and one commitment is the bearer. */
  lemma TokenSessionAccepted(keccak: bytes -> bytes32, sent: bytes, sl: Layout, recv: bytes, rl: Layout, made: seq<Made>,
                             s: ObservedSession, d: AttestedData)
    requires TokenResponse(recv) == Ok(rl) && HonestSession(sent, sl, recv, rl, made, s)
    requires ValidSession(s) && FromObserved(keccak, s) == Ok(d)
    ensures Covered(d, sent, recv)
    ensures exists m ::
              && InResponse(recv, ACCESS_TOKEN) == Some(m) && FramedMember(recv, ACCESS_TOKEN, m)
              && multiset(Map(d.received.commitments, SpanOf))[m.value] == 1
              && forall c | c in d.received.commitments :: FramedAsBearer(d.received, c) <==> SpanOf(c) == m.value
  {
    hide HonestDirection, AllCommitted, Tiles, CarriesTranscript, DirectionOf, Map, Normalized, FromObserved, TokenResponse,
      FramedMember, FramedAsBearer, InResponse;
    HonestRecord(keccak, sent, sl, recv, rl, made, s, d);
    TokenRecordFramesOneBearer(recv, rl, made, d.received);
  }

  /** The identity session: the record is covered, and the request commits the bearer alone. */
  lemma IdentitySessionAccepted(keccak: bytes -> bytes32, sent: bytes, sl: Layout, recv: bytes, rl: Layout,
                                made: seq<Made>, s: ObservedSession, d: AttestedData)
    requires IdentityRequest(sent) == Ok(sl) && sl.committed != [] && HonestSession(sent, sl, recv, rl, made, s)
    requires ValidSession(s) && FromObserved(keccak, s) == Ok(d)
    ensures Covered(d, sent, recv) && BearerRequest(d.sent)
  {
    hide HonestDirection, AllCommitted, Tiles, CarriesTranscript, DirectionOf, Map, Normalized, FromObserved, IdentityRequest,
      BearerRequest;
    HonestRecord(keccak, sent, sl, recv, rl, made, s, d);
    IdentityRequestRecord(sent, sl, d.sent);
  }

  /** The layouts the ceremonies build are layouts an honest session can run over. */
  lemma IdentityResponseIsHonest(recv: bytes, session: IdentitySession, l: Layout, made: seq<Made>)
    requires IdentityResponse(recv, session) == Ok(l) && SessionCloses(recv, session) && |recv| < U32_LIMIT
    requires IsName(session.idField) && IsName(session.handleField) && session.idField != session.handleField
    requires multiset(RangesMade(made, Received)) == multiset(l.committed)
    ensures HonestDirection(recv, l, made, Received)
  {
    hide SessionCloses, RangesMade, Tiles, SortBy, ComplementFrom, ComputeIdSnippetRange, ComputeFieldSnippetRange,
      NoOverlap, PairwiseDisjoint, Found, IsName;
    IdentityResponseTiles(recv, session, l);
    var at, id, handle := IdentityMembers(recv, session, l);
    LayoutOfItsReveals([Shift(id, at), Shift(handle, at)], |recv|);
  }

  lemma TokenResponseIsHonest(recv: bytes, l: Layout, made: seq<Made>)
    requires TokenResponse(recv) == Ok(l) && |recv| < U32_LIMIT
    requires multiset(RangesMade(made, Received)) == multiset(l.committed)
    ensures HonestDirection(recv, l, made, Received)
  {
    hide InResponse, RangesMade, Tiles, SortBy, ComplementFrom, FramedMember, Partitions, MaximalRuns, Ascending;
    var m := InResponse(recv, ACCESS_TOKEN).value;
    FoundIsFramed(recv, ACCESS_TOKEN, m);
    MemberBounds(recv, ACCESS_TOKEN, m);
    DisjointRevealsAreHonest(recv, [Range(m.member.start, m.value.start), Range(m.value.end, m.member.end)], made, Received);
  }

  /** So is a token request's, even where the secret's name opens the whole request
      and nothing is revealed. */
  lemma TokenRequestIsHonest(sent: bytes, secretField: Option<bytes>, l: Layout, made: seq<Made>)
    requires TokenRequest(sent, secretField) == Ok(l) && |sent| < U32_LIMIT
    requires multiset(RangesMade(made, Sent)) == multiset(l.committed)
    ensures HonestDirection(sent, l, made, Sent)
  {
    hide FindFrom, RangesMade, Tiles, ComplementFrom, Partitions, MaximalRuns, OccursAt;
    var end := if secretField.None? then |sent| else FindFrom(sent, [AMPERSAND] + secretField.value + [EQUALS], 0).value;
    if secretField.Some? { OccursFits(sent, [AMPERSAND] + secretField.value + [EQUALS], end); }
    OneRevealed(Range(0, end), |sent|);
    OpenableRevealsAreHonest(sent, [Range(0, end)], made, Sent);
  }

  lemma IdentityRequestIsHonest(sent: bytes, l: Layout, made: seq<Made>)
    requires IdentityRequest(sent) == Ok(l) && |sent| < U32_LIMIT
    requires multiset(RangesMade(made, Sent)) == multiset(l.committed)
    ensures HonestDirection(sent, l, made, Sent)
  {
    hide FindFrom, RangesMade, Tiles, SortBy, ComplementFrom, Partitions, MaximalRuns, Ascending, OccursAt;
    var prefixAt := FindFrom(sent, BEARER_PREFIX, 0).value;
    var valueStart := prefixAt + |BEARER_PREFIX|;
    var valueEnd := FindFrom(sent, CRLF, valueStart).value;
    OccursFits(sent, CRLF, valueEnd);
    DisjointRevealsAreHonest(sent, [Range(0, valueStart), Range(valueEnd, |sent|)], made, Sent);
  }
}
