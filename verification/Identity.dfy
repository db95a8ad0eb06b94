/** The identity response never overlaps its own reveals: the debug assertion of
    `revealing` cannot fire on it, whichever member the platform serialized first. */
module Identity {
  import opened Wrappers
  import opened Octets
  import opened Ranges
  import opened Layouts
  import opened JsonScan
  import opened JsonText
  import opened Response
  import opened Ceremony

  /** A found string member closes as a JSON member does: past whitespace no colon
      follows its value, and the other name and a quote do not run on from it. */
  ghost predicate Closes(raw: bytes, end: nat, other: bytes) {
    && !(SkipWs(raw, end) < |raw| && raw[SkipWs(raw, end)] == COLON)
    && !OccursAt(raw, other + [QUOTE], end)
  }

  /** `r` is a found member of either shape. */
  ghost predicate Found(raw: bytes, field: bytes, quoted: bool, r: Range) {
    if quoted then exists m :: IsMember(raw, field, m) && m.member == r else IsBare(raw, field, r)
  }

  // ----- where a second key can open inside a member -----

  // The bytes of a key that matched, as far as these lemmas need them.
  lemma KeyBytes(raw: bytes, field: bytes, i: nat)
    requires OccursAt(raw, Key(field), i)
    ensures i + |field| + 2 <= |raw| && raw[i] == QUOTE == raw[i + |field| + 1]
    ensures Agree(raw, i + 1, field, 0, |field|)
  {
    assert Key(field)[0] == QUOTE == Key(field)[|field| + 1];
    assert forall k | 0 <= k < |field| :: Key(field)[k + 1] == field[k];
  }

  // Between the name and the value there is whitespace and a colon only.
  lemma NoQuoteBeforeValue(raw: bytes, field: bytes, quoted: bool, i: nat, k: nat)
    requires MatchesAt(raw, field, quoted, i) && i + |field| + 2 <= k < ValueAt(raw, field, i)
    ensures k < |raw| && (IsWs(raw[k]) || raw[k] == COLON)
  {
  }

  // A name opens with a letter, so it does not open right after another name.
  lemma NotAfterName(raw: bytes, a: bytes, quoted: bool, i: nat, b: bytes, j: nat)
    requires MatchesAt(raw, a, quoted, i) && OccursAt(raw, Key(b), j) && IsName(a) && IsName(b) && i < j
    ensures ValueAt(raw, a, i) <= j
  {
    hide ColonAt, ValueAt, Key, MatchesAt, Agree, OccursAt;
    MatchedKey(raw, a, quoted, i);
    KeyBytes(raw, a, i);
    KeyBytes(raw, b, j);
    InsideName(raw, a, i, j);
    FirstOf(raw, b, j);
    if j < ValueAt(raw, a, i) {
      NoQuoteBeforeValue(raw, a, quoted, i, if j == i + |a| + 1 then j + 1 else j);
    }
  }

  lemma MatchedKey(raw: bytes, field: bytes, quoted: bool, i: nat)
    requires MatchesAt(raw, field, quoted, i)
    ensures OccursAt(raw, Key(field), i) && i + |field| + 2 < ValueAt(raw, field, i)
  {
  }

  lemma InsideName(raw: bytes, field: bytes, i: nat, j: nat)
    requires Agree(raw, i + 1, field, 0, |field|) && Without(field, QUOTE) && j < |raw| && raw[j] == QUOTE && j > i
    ensures j > i + |field|
  {
  }

  lemma FirstOf(raw: bytes, field: bytes, j: nat)
    requires Agree(raw, j + 1, field, 0, |field|) && field != []
    ensures raw[j + 1] == field[0]
  {
  }

  // Inside a bare member there is no quote past the name.
  lemma NotInsideBare(raw: bytes, a: bytes, r: Range, b: bytes, j: nat)
    requires IsBare(raw, a, r) && OccursAt(raw, Key(b), j) && IsName(a) && IsName(b) && r.start < j
    ensures r.end <= j
  {
    hide ColonAt, ValueAt, Key, MatchesAt, Agree, OccursAt;
    KeyBytes(raw, b, j);
    if j < r.end {
      NoQuoteInNumber(raw, a, r, j);
      NotAfterName(raw, a, false, r.start, b, j);
    }
  }

  lemma NoQuoteInNumber(raw: bytes, a: bytes, r: Range, j: nat)
    requires IsBare(raw, a, r) && j < r.end && j < |raw| && raw[j] == QUOTE
    ensures j < ValueAt(raw, a, r.start)
  {
    hide ColonAt, ValueAt, Key, MatchesAt;
  }

  // Inside a string member a second key can only open at the value's two quotes,
  // and `Closes` excludes both.
  lemma NotInsideMember(raw: bytes, a: bytes, m: JsonMember, b: bytes, quoted: bool, j: nat)
    requires IsMember(raw, a, m) && Closes(raw, m.member.end, b)
    requires MatchesAt(raw, b, quoted, j) && IsName(a) && IsName(b) && m.member.start < j
    ensures m.member.end <= j
  {
    hide ColonAt, ValueAt, Key, MatchesAt, Agree, OccursAt, Closes;
    MatchedKey(raw, b, quoted, j);
    KeyBytes(raw, b, j);
    if j < m.value.start - 1 {
      NotAfterName(raw, a, true, m.member.start, b, j);
    } else if j == m.value.start - 1 {
      ValueIsNotKey(raw, m, b, quoted, j);
    } else if j == m.value.end {
      NotAtClose(raw, m.member.end, b);
    }
  }

  lemma NotAtClose(raw: bytes, end: nat, b: bytes)
    requires end > 0 && OccursAt(raw, Key(b), end - 1)
    ensures !Closes(raw, end, b)
  {
    var k := Key(b);
    assert forall i | 0 <= i <= |b| :: (b + [QUOTE])[i] == k[i + 1];
  }

  lemma ValueIsNotKey(raw: bytes, m: JsonMember, b: bytes, quoted: bool, j: nat)
    requires j + 1 == m.value.start <= m.value.end < |raw| && raw[m.value.end] == QUOTE
    requires m.member.end == m.value.end + 1
    requires forall i | m.value.start <= i < m.value.end :: raw[i] != QUOTE
    requires MatchesAt(raw, b, quoted, j) && Without(b, QUOTE)
    ensures !Closes(raw, m.member.end, b)
  {
    hide ValueAt, Agree;
    KeyBytes(raw, b, j);
    InsideName(raw, b, j, m.value.end);
    assert j + |b| + 2 == m.member.end;
  }

  // ----- two members -----

  // Equal starts mean equal names.
  lemma DistinctStarts(raw: bytes, a: bytes, b: bytes, i: nat)
    requires OccursAt(raw, Key(a), i) && OccursAt(raw, Key(b), i) && Without(a, QUOTE) && Without(b, QUOTE)
    ensures a == b
  {
    hide Key;
    KeyBytes(raw, a, i);
    KeyBytes(raw, b, i);
    InsideName(raw, a, i, i + |b| + 1);
    InsideName(raw, b, i, i + |a| + 1);
    assert forall k | 0 <= k < |a| :: raw[i + 1 + k] == a[k] by { assert forall x | i + 1 <= x < i + 1 + |a| :: raw[x] == a[x - i - 1]; }
    assert forall k | 0 <= k < |a| :: a[k] == b[k];
  }

  lemma FoundMatches(raw: bytes, field: bytes, quoted: bool, r: Range)
    requires Found(raw, field, quoted, r)
    ensures MatchesAt(raw, field, quoted, r.start) && r.start < r.end <= |raw|
  {
    hide MatchesAt;
  }

  // Whichever opens first ends before the other.
  lemma FirstEndsFirst(raw: bytes, a: bytes, qa: bool, ra: Range, b: bytes, qb: bool, rb: Range)
    requires Found(raw, a, qa, ra) && Found(raw, b, qb, rb) && IsName(a) && IsName(b)
    requires qa ==> Closes(raw, ra.end, b)
    requires ra.start < rb.start
    ensures ra.end <= rb.start
  {
    hide MatchesAt, IsMember, IsBare, Closes;
    FoundMatches(raw, b, qb, rb);
    if qa {
      var m :| IsMember(raw, a, m) && m.member == ra;
      NotInsideMember(raw, a, m, b, qb, rb.start);
    } else {
      MatchedKey(raw, b, qb, rb.start);
      NotInsideBare(raw, a, ra, b, rb.start);
    }
  }

  /** Two members of distinct names are disjoint, in either order and either shape. */
  lemma MembersDisjoint(raw: bytes, a: bytes, qa: bool, ra: Range, b: bytes, qb: bool, rb: Range)
    requires Found(raw, a, qa, ra) && Found(raw, b, qb, rb) && IsName(a) && IsName(b) && a != b
    requires qa ==> Closes(raw, ra.end, b)
    requires qb ==> Closes(raw, rb.end, a)
    ensures ra.end <= rb.start || rb.end <= ra.start
  {
    hide MatchesAt, Found, Closes, OccursAt;
    FoundMatches(raw, a, qa, ra);
    FoundMatches(raw, b, qb, rb);
    MatchedKey(raw, a, qa, ra.start);
    MatchedKey(raw, b, qb, rb.start);
    if ra.start == rb.start {
      DistinctStarts(raw, a, b, ra.start);
    } else if ra.start < rb.start {
      FirstEndsFirst(raw, a, qa, ra, b, qb, rb);
    } else {
      FirstEndsFirst(raw, b, qb, rb, a, qa, ra);
    }
  }

  // ----- the layout -----

  /** The body's members, where the layout finds them. */
  lemma IdentityMembers(recv: bytes, session: IdentitySession, l: Layout) returns (at: nat, id: Range, handle: Range)
    requires IdentityResponse(recv, session) == Ok(l)
    ensures at <= |recv| && FindResponseBodyRange(recv) == Some(Range(at, |recv|))
    ensures Found(recv[at..], session.idField, session.idShape.JsonString?, id)
    ensures Found(recv[at..], session.handleField, true, handle)
    ensures l == RevealingLayout([Shift(id, at), Shift(handle, at)], |recv|)
    ensures ComputeIdSnippetRange(recv, session.idField, session.idShape.JsonString?) == Some(Shift(id, at))
    ensures ComputeFieldSnippetRange(recv, session.handleField) == Some(Shift(handle, at))
  {
    hide InBody, BareSnippet, IsMember, IsBare, RevealingLayout, ExtractResponseBody, FindFrom;
    at := FindResponseBodyRange(recv).value.start;
    handle := FoundField(recv, session.handleField, at);
    if session.idShape.JsonString? {
      id := FoundField(recv, session.idField, at);
    } else {
      var r := BareSnippet(recv[at..], session.idField).value;
      FoundIsFirstBare(recv[at..], session.idField, r);
      id := r;
    }
  }

  lemma FoundField(recv: bytes, field: bytes, at: nat) returns (r: Range)
    requires ComputeFieldSnippetRange(recv, field).Some? && FindResponseBodyRange(recv) == Some(Range(at, |recv|))
    requires at <= |recv|
    ensures Found(recv[at..], field, true, r) && ComputeFieldSnippetRange(recv, field) == Some(Shift(r, at))
  {
    hide InBody, IsMember, IsBare, ExtractResponseBody, FindResponseBodyRange;
    var m := InBody(recv[at..], field).value;
    FoundIsFirstMember(recv[at..], field, m);
    r := m.member;
  }

  /** Both members close as JSON members do. */
  ghost predicate SessionCloses(recv: bytes, session: IdentitySession) {
    && (match ComputeIdSnippetRange(recv, session.idField, session.idShape.JsonString?)
        case None => true
        case Some(id) => session.idShape.JsonString? ==> Closes(recv, id.end, session.handleField))
    && (match ComputeFieldSnippetRange(recv, session.handleField)
        case None => true
        case Some(handle) => Closes(recv, handle.end, session.idField))
  }

  lemma ClosesInBody(recv: bytes, at: nat, end: nat, other: bytes)
    requires at + end <= |recv| && Closes(recv, at + end, other)
    ensures Closes(recv[at..], end, other)
  {
    var raw := recv[at..];
    assert forall i | 0 <= i < |raw| :: raw[i] == recv[at + i];
    assert forall i | at <= i < |recv| :: recv[i] == raw[i - at];
    var e := SkipWs(raw, end);
    if e < |raw| { SkipWsIs(recv, at + end, at + e); }
  }

  /** Whenever the identity layout is built, its two reveals are disjoint and it tiles. */
  lemma IdentityResponseTiles(recv: bytes, session: IdentitySession, l: Layout)
    requires IdentityResponse(recv, session) == Ok(l) && SessionCloses(recv, session)
    requires IsName(session.idField) && IsName(session.handleField) && session.idField != session.handleField
    ensures |l.revealed| == 2 && NoOverlap(l.revealed) && NonEmpty(l.revealed) && InBounds(l.revealed, |recv|)
    ensures Tiles(l.revealed + l.committed, |recv|)
  {
    hide Found, Closes, RevealingLayout, IdentityResponse, ComputeIdSnippetRange, ComputeFieldSnippetRange,
      FindResponseBodyRange, Tiles, Partitions, MaximalRuns, IsName, SortBy, Ascending;
    var at, id, handle := IdentityMembers(recv, session, l);
    var raw := recv[at..];
    FoundMatches(raw, session.idField, session.idShape.JsonString?, id);
    FoundMatches(raw, session.handleField, true, handle);
    ClosesInBody(recv, at, handle.end, session.idField);
    if session.idShape.JsonString? { ClosesInBody(recv, at, id.end, session.handleField); }
    MembersDisjoint(raw, session.idField, session.idShape.JsonString?, id, session.handleField, true, handle);
    var both := [Shift(id, at), Shift(handle, at)];
    RevealingPartitions(both, |recv|);
    SameElements(l.revealed, both);
  }
}
