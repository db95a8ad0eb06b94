/** The four ceremony layouts: what each session of a launch profile reveals. */
module Ceremony {
  import opened Wrappers
  import opened Octets
  import opened Ranges
  import opened Layouts
  import opened JsonScan
  import opened JsonText
  import opened Response

  datatype LayoutError = MissingHeader | MissingField(field: bytes) | MissingCredential

  // "access_token", and CRLF with "authorization: Bearer ".
  const ACCESS_TOKEN: bytes := [97, 99, 99, 101, 115, 115, 95, 116, 111, 107, 101, 110]
  const BEARER_PREFIX: bytes :=
    CRLF + [97, 117, 116, 104, 111, 114, 105, 122, 97, 116, 105, 111, 110, 58, 32, 66, 101, 97, 114, 101, 114, 32]
  const AMPERSAND: byte := 38
  const EQUALS: byte := 61

  datatype IdShape = JsonString | JsonInteger

  datatype IdentitySession = IdentitySession(idField: bytes, idShape: IdShape, handleField: bytes)

  function TokenRequest(sent: bytes, secretField: Option<bytes>): Result<Layout, LayoutError> {
    match secretField
    case None => Ok(RevealingLayout([Range(0, |sent|)], |sent|))
    case Some(field) =>
      match FindFrom(sent, [AMPERSAND] + field + [EQUALS], 0)
      case None => Err(MissingCredential)
      case Some(start) => Ok(RevealingLayout([Range(0, start)], |sent|))
  }

  function TokenResponse(recv: bytes): Result<Layout, LayoutError> {
    match InResponse(recv, ACCESS_TOKEN)
    case None => Err(MissingField(ACCESS_TOKEN))
    case Some(found) =>
      if found.value.start >= found.value.end then Err(MissingField(ACCESS_TOKEN))
      else Ok(RevealingLayout([Range(found.member.start, found.value.start), Range(found.value.end, found.member.end)],
                              |recv|))
  }

  function IdentityRequest(sent: bytes): Result<Layout, LayoutError> {
    match FindFrom(sent, BEARER_PREFIX, 0)
    case None => Err(MissingHeader)
    case Some(prefixAt) =>
      var valueStart := prefixAt + |BEARER_PREFIX|;
      match FindFrom(sent, CRLF, valueStart)
      case None => Err(MissingHeader)
      case Some(valueEnd) => Ok(RevealingLayout([Range(0, valueStart), Range(valueEnd, |sent|)], |sent|))
  }

  function IdentityResponse(recv: bytes, session: IdentitySession): Result<Layout, LayoutError> {
    match ComputeIdSnippetRange(recv, session.idField, session.idShape.JsonString?)
    case None => Err(MissingField(session.idField))
    case Some(id) =>
      match ComputeFieldSnippetRange(recv, session.handleField)
      case None => Err(MissingField(session.handleField))
      case Some(handle) => Ok(RevealingLayout([id, handle], |recv|))
  }

  // ----- layouts of one and of two reveals -----

  lemma OneRevealed(r: Range, len: nat)
    requires r.start == 0 && r.end <= len
    ensures RevealingLayout([r], len) == Layout([r], if r.end < len then [Range(r.end, len)] else [])
    ensures Partitions([r] + RevealingLayout([r], len).committed, len)
  {
    var l := RevealingLayout([r], len);
    assert [r][1..] == [];
    assert SortBy([r][1..], StartOf) == [];
    assert l.revealed == [r];
    assert ComplementFrom([r][1..], r.end, len) == if r.end < len then [Range(r.end, len)] else [];
    PartitionIffNoOverlap([r], len);
  }

  lemma TwoRevealed(a: Range, b: Range, len: nat)
    requires a.start < a.end <= b.start < b.end <= len
    ensures RevealingLayout([a, b], len) ==
            Layout([a, b],
                   (if 0 < a.start then [Range(0, a.start)] else [])
                   + ((if a.end < b.start then [Range(a.end, b.start)] else [])
                      + (if b.end < len then [Range(b.end, len)] else [])))
  {
    assert [a, b][1..] == [b] && [b][1..] == [];
    assert SortBy([], StartOf) == [];
    assert SortBy([b], StartOf) == [b];
    assert Insert(a, [b], StartOf) == [a, b];
    assert ComplementFrom([b][1..], b.end, len) == if b.end < len then [Range(b.end, len)] else [];
    assert ComplementFrom([a, b][1..], a.end, len) == ComplementFrom([b], a.end, len);
  }

  // ----- token request -----

  /** The secret and its field name are one committed suffix; without a secret
      field nothing is hidden, and either way the layout partitions the request. */
  lemma TokenRequestCommitsASuffix(sent: bytes, secretField: Option<bytes>)
    ensures match TokenRequest(sent, secretField)
            case Err(e) =>
              secretField.Some? && e == MissingCredential &&
              forall i: nat :: !OccursAt(sent, [38] + secretField.value + [61], i)
            case Ok(l) =>
              Partitions(l.revealed + l.committed, |sent|) &&
              match secretField
              case None => l == Layout([Range(0, |sent|)], [])
              case Some(field) =>
                |l.revealed| == 1 && l.revealed[0].start == 0 &&
                var start := l.revealed[0].end;
                l.committed == [Range(start, |sent|)] && OccursAt(sent, [38] + field + [61], start) &&
                forall i: nat | i < start :: !OccursAt(sent, [38] + field + [61], i)
  {
    hide RevealingLayout, FindFrom, OccursAt, Partitions;
    match secretField
    case None => OneRevealed(Range(0, |sent|), |sent|);
    case Some(field) =>
      var found := FindFrom(sent, [AMPERSAND] + field + [EQUALS], 0);
      if found.Some? {
        OccursFits(sent, [AMPERSAND] + field + [EQUALS], found.value);
        OneRevealed(Range(0, found.value), |sent|);
      }
  }

  lemma OccursFits(haystack: bytes, needle: bytes, i: nat)
    requires OccursAt(haystack, needle, i)
    ensures i + |needle| <= |haystack|
  {
  }

  // ----- identity request -----

  /** Every byte is revealed but the bearer: the one commitment, when the bearer is
      not empty, runs from the first header prefix to the first CRLF after it. */
  lemma IdentityRequestCommitsTheBearer(sent: bytes)
    ensures match IdentityRequest(sent)
            case Err(e) =>
              e == MissingHeader &&
              forall i: nat, k: nat | OccursAt(sent, BEARER_PREFIX, i) && i + |BEARER_PREFIX| <= k ::
                !OccursAt(sent, CRLF, k)
            case Ok(l) =>
              |l.revealed| == 2 && l.revealed[0].start == 0 && l.revealed[1].end == |sent| &&
              var bearer := Range(l.revealed[0].end, l.revealed[1].start);
              Fits(bearer, sent) && bearer.start >= |BEARER_PREFIX| &&
              OccursAt(sent, BEARER_PREFIX, bearer.start - |BEARER_PREFIX|) && OccursAt(sent, CRLF, bearer.end) &&
              (forall i: nat | i + |BEARER_PREFIX| < bearer.start :: !OccursAt(sent, BEARER_PREFIX, i)) &&
              (forall k: nat | bearer.start <= k < bearer.end :: !OccursAt(sent, CRLF, k)) &&
              l.committed == (if bearer.start < bearer.end then [bearer] else []) &&
              Tiles(l.revealed + l.committed, |sent|)
  {
    hide RevealingLayout, FindFrom, OccursAt, Tiles, Partitions, MaximalRuns, Ascending;
    var prefix := FindFrom(sent, BEARER_PREFIX, 0);
    if prefix.Some? {
      var valueStart := prefix.value + |BEARER_PREFIX|;
      var crlf := FindFrom(sent, CRLF, valueStart);
      if crlf.Some? {
        OccursFits(sent, CRLF, crlf.value);
        var a, b := Range(0, valueStart), Range(crlf.value, |sent|);
        TwoRevealed(a, b, |sent|);
        RevealingPartitions([a, b], |sent|);
      }
    }
  }

  // ----- token response -----

  /** The bytes before offset `b` are the quoted name, whitespace around a colon, and a quote. */
  ghost predicate Delimits(s: bytes, field: bytes, a: nat, c: nat, b: nat) {
    && b <= |s| && OccursAt(s, Key(field), a) && a + |field| + 2 <= c && c + 2 <= b
    && (forall i | a + |field| + 2 <= i < c :: IsWs(s[i])) && s[c] == COLON
    && (forall i | c < i < b - 1 :: IsWs(s[i])) && s[b - 1] == QUOTE
  }

  ghost predicate DelimiterEndsAt(s: bytes, field: bytes, b: nat) { exists a, c :: Delimits(s, field, a, c, b) }

  /** A member at its transcript offsets: delimiter, quote-free value, closing quote. */
  ghost predicate FramedMember(s: bytes, field: bytes, m: JsonMember) {
    && Fits(m.member, s) && m.member.start + |field| + 4 <= m.value.start <= m.value.end
    && m.member.end == m.value.end + 1 && s[m.value.end] == QUOTE
    && Delimits(s, field, m.member.start, ColonAt(s, field, m.member.start), m.value.start)
    && forall i | m.value.start <= i < m.value.end :: s[i] != QUOTE
  }

  lemma MemberIsFramed(s: bytes, field: bytes, m: JsonMember)
    requires IsMember(s, field, m)
    ensures FramedMember(s, field, m)
  {
  }

  lemma FramedMemberShifts(recv: bytes, at: nat, field: bytes, m: JsonMember)
    requires at <= |recv| && FramedMember(recv[at..], field, m)
    ensures FramedMember(recv, field, ShiftMember(m, at))
  {
    var raw, a, c := recv[at..], m.member.start, ColonAt(recv[at..], field, m.member.start);
    assert forall i | at <= i < |recv| :: recv[i] == raw[i - at];
    SkipWsIs(recv, at + a + |field| + 2, at + c);
  }

  lemma FoundIsFramed(recv: bytes, field: bytes, found: JsonMember)
    requires InResponse(recv, field) == Some(found)
    ensures FramedMember(recv, field, found) && found.member.start >= 4
  {
    hide IsMember, FramedMember, InBody, ExtractResponseBody, IsChunked;
    var at := FindResponseBodyRange(recv).value.start;
    var m := InBody(recv[at..], field).value;
    FoundIsFirstMember(recv[at..], field, m);
    MemberIsFramed(recv[at..], field, m);
    FramedMemberShifts(recv, at, field, m);
  }

  // Inside a framed member, only the value opens where a delimiter ends.
  lemma NoDelimiterEndsAtClose(s: bytes, field: bytes, m: JsonMember)
    requires FramedMember(s, field, m) && IsName(field) && IsLetterLast(field)
    ensures !DelimiterEndsAt(s, field, m.member.end)
  {
    forall a, c ensures !Delimits(s, field, a, c, m.member.end) {
      if Delimits(s, field, a, c, m.member.end) {
        NameBeforeQuote(s, field, a, c, m);
      }
    }
  }

  predicate IsLetterLast(field: bytes) { field != [] && IsLetter(field[|field| - 1]) }

  lemma NameBeforeQuote(s: bytes, field: bytes, a: nat, c: nat, m: JsonMember)
    requires FramedMember(s, field, m) && IsLetterLast(field)
    requires OccursAt(s, Key(field), a) && a + |field| + 2 <= c && c + 2 <= m.member.end
    ensures !((forall i | a + |field| + 2 <= i < c :: IsWs(s[i])) && s[c] == COLON &&
              (forall i | c < i < m.member.end - 1 :: IsWs(s[i])))
  {
    var q := a + |field| + 1;
    assert s[q] == Key(field)[|field| + 1] == QUOTE;
    assert s[q - 1] == Key(field)[|field|] == field[|field| - 1];
    assert q != m.value.start - 1;
    assert q < m.value.start - 1;
  }

  lemma AccessTokenIsName()
    ensures IsName(ACCESS_TOKEN) && IsLetterLast(ACCESS_TOKEN)
  {
    assert ACCESS_TOKEN[0] == 'a' as int && ACCESS_TOKEN[11] == 'n' as int;
  }

  /** The bearer a token response commits: of all the committed ranges, exactly the
      value is preceded by the delimiter; it is not empty and holds no quote, and
      what is revealed is the delimiter and the closing quote. */
  lemma TokenResponseFramesTheBearer(recv: bytes, l: Layout)
    requires TokenResponse(recv) == Ok(l)
    ensures exists m ::
              && InResponse(recv, ACCESS_TOKEN) == Some(m) && FramedMember(recv, ACCESS_TOKEN, m)
              && m.value.start < m.value.end
              && l.revealed == [Range(m.member.start, m.value.start), Range(m.value.end, m.member.end)]
              && m.value in l.committed
              && (forall c | c in l.committed :: DelimiterEndsAt(recv, ACCESS_TOKEN, c.start) <==> c == m.value)
              && Tiles(l.revealed + l.committed, |recv|)
  {
    hide RevealingLayout, InResponse, FramedMember, Tiles, DelimiterEndsAt, Delimits;
    var m := InResponse(recv, ACCESS_TOKEN).value;
    FoundIsFramed(recv, ACCESS_TOKEN, m);
    AccessTokenIsName();
    MemberBounds(recv, ACCESS_TOKEN, m);
    var a, b := Range(m.member.start, m.value.start), Range(m.value.end, m.member.end);
    TwoRevealed(a, b, |recv|);
    RevealingPartitions([a, b], |recv|);
    NoDelimiterEndsAtClose(recv, ACCESS_TOKEN, m);
    DelimiterEndsAtValue(recv, ACCESS_TOKEN, m);
    NoDelimiterEndsAtZero(recv, ACCESS_TOKEN);
    assert l.committed == [Range(0, a.start), m.value] + (if b.end < |recv| then [Range(b.end, |recv|)] else []);
    assert l.committed[1] == m.value;
  }

  lemma MemberBounds(s: bytes, field: bytes, m: JsonMember)
    requires FramedMember(s, field, m)
    ensures m.member.start < m.value.start <= m.value.end < m.member.end <= |s|
  {
  }

  lemma DelimiterEndsAtValue(s: bytes, field: bytes, m: JsonMember)
    requires FramedMember(s, field, m)
    ensures DelimiterEndsAt(s, field, m.value.start)
  {
  }

  lemma NoDelimiterEndsAtZero(s: bytes, field: bytes)
    ensures !DelimiterEndsAt(s, field, 0)
  {
  }
}
