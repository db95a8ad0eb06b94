/** The member scanners of `ranges.rs`: find a key that a colon follows, and the
    value behind it. */
module JsonScan {
  import opened Wrappers
  import opened Octets

  datatype JsonMember = JsonMember(member: Range, value: Range)

  // ----- whitespace -----

  /** The first offset from `at` on that holds no whitespace byte, the end included. */
  function SkipWs(body: bytes, at: nat): (end: nat)
    ensures at <= end && (end == at || end <= |body|)
    ensures forall i | at <= i < end :: IsWs(body[i])
    ensures end < |body| ==> !IsWs(body[end])
    decreases |body| - at
  {
    if at < |body| && IsWs(body[at]) then SkipWs(body, at + 1) else at
  }

  method SkipJsonWhitespace(body: bytes, from: nat) returns (at: nat)
    ensures at == SkipWs(body, from)
    ensures from <= at && forall i | from <= i < at && i < |body| :: body[i] == 9 || body[i] == 10 || body[i] == 13 || body[i] == 32
    ensures at < |body| ==> body[at] != 9 && body[at] != 10 && body[at] != 13 && body[at] != 32
  {
    at := from;
    while at < |body| && IsWs(body[at])
      invariant at <= |body| || at == from
      invariant SkipWs(body, at) == SkipWs(body, from)
    {
      at := at + 1;
    }
  }

  lemma SkipWsIs(body: bytes, at: nat, end: nat)
    requires at <= end < |body| && !IsWs(body[end])
    requires forall i | at <= i < end :: IsWs(body[i])
    ensures SkipWs(body, at) == end
    decreases end - at
  {
    if at < end { SkipWsIs(body, at + 1, end); }
  }

  // Two bodies that agree to the end of the run and one byte further skip alike.
  lemma SkipWsTransfer(a: bytes, i: nat, b: bytes, j: nat, n: nat)
    requires Agree(a, i, b, j, n) && SkipWs(a, i) < i + n
    ensures SkipWs(b, j) == j + (SkipWs(a, i) - i)
  {
    AgreeSymmetric(a, i, b, j, n);
    var e := SkipWs(a, i);
    SkipWsIs(b, j, j + (e - i));
  }

  // ----- keys -----

  /** The quoted name, as the scanners look for it. */
  function Key(field: bytes): (key: bytes)
    ensures |key| == |field| + 2
  {
    [QUOTE] + field + [QUOTE]
  }

  function ColonAt(body: bytes, field: bytes, i: nat): (c: nat)
    ensures c >= i + |field| + 2
  {
    SkipWs(body, i + |Key(field)|)
  }

  function ValueAt(body: bytes, field: bytes, i: nat): (v: nat)
    ensures v > ColonAt(body, field, i)
  {
    SkipWs(body, ColonAt(body, field, i) + 1)
  }

  /** The key opens at `i` and a colon follows it; when `quoted`, a quote follows that. */
  predicate MatchesAt(body: bytes, field: bytes, quoted: bool, i: nat): (b: bool)
    ensures b ==> i + |field| + 2 < |body|
  {
    && OccursAt(body, Key(field), i)
    && ColonAt(body, field, i) < |body| && body[ColonAt(body, field, i)] == COLON
    && (quoted ==> ValueAt(body, field, i) < |body| && body[ValueAt(body, field, i)] == QUOTE)
  }

  function FirstMatch(body: bytes, field: bytes, quoted: bool, from: nat): Option<nat>
    decreases |body| - from
  {
    if from >= |body| then None
    else if MatchesAt(body, field, quoted, from) then Some(from)
    else FirstMatch(body, field, quoted, from + 1)
  }

  /** The scan finds the first match at or after `from`, and misses none. */
  lemma FirstMatchIsFirst(body: bytes, field: bytes, quoted: bool, from: nat)
    ensures var r := FirstMatch(body, field, quoted, from);
            && (r.None? ==> forall i: nat | from <= i :: !MatchesAt(body, field, quoted, i))
            && (r.Some? ==> from <= r.value && MatchesAt(body, field, quoted, r.value) &&
                            forall i: nat | from <= i < r.value :: !MatchesAt(body, field, quoted, i))
    decreases |body| - from
  {
    hide MatchesAt;
    if from < |body| { FirstMatchIsFirst(body, field, quoted, from + 1); }
  }

  lemma FirstMatchIs(body: bytes, field: bytes, quoted: bool, from: nat, at: nat)
    requires from <= at && MatchesAt(body, field, quoted, at)
    requires forall i: nat | from <= i < at :: !MatchesAt(body, field, quoted, i)
    ensures FirstMatch(body, field, quoted, from) == Some(at)
    decreases at - from
  {
    hide MatchesAt;
    if from < at { FirstMatchIs(body, field, quoted, from + 1, at); }
  }

  /** Where the scan stops: the match, and its value's first byte. */
  function KeyAndValue(body: bytes, field: bytes, quoted: bool): Option<(nat, nat)> {
    match FirstMatch(body, field, quoted, 0)
    case None => None
    case Some(i) => Some((i, ValueAt(body, field, i)))
  }

  // Between two occurrences of the key there is no match to miss.
  lemma FirstMatchSkips(body: bytes, field: bytes, quoted: bool, from: nat, until: nat)
    requires from <= until
    requires forall i: nat | from <= i < until :: !OccursAt(body, Key(field), i)
    ensures FirstMatch(body, field, quoted, from) == FirstMatch(body, field, quoted, until)
    decreases until - from
  {
    if from < until && from < |body| { FirstMatchSkips(body, field, quoted, from + 1, until); }
  }

  // One search for the key settles the scan or moves it past the occurrence tried.
  lemma SearchMoves(body: bytes, field: bytes, quoted: bool, from: nat)
    requires from <= |body|
    ensures match FindFrom(body, Key(field), from)
            case None => FirstMatch(body, field, quoted, from) == None
            case Some(at) =>
              from <= at < |body| && OccursAt(body, Key(field), at) &&
              FirstMatch(body, field, quoted, from) ==
              if MatchesAt(body, field, quoted, at) then Some(at) else FirstMatch(body, field, quoted, at + 1)
  {
    var found := FindFrom(body, Key(field), from);
    FirstMatchSkips(body, field, quoted, from, if found.None? then |body| else found.value);
  }

  /** The loop of `key_and_value`: search for the key, try it, search on. */
  method ScanKeyAndValue(body: bytes, field: bytes, quoted: bool) returns (r: Option<(nat, nat)>)
    ensures r == KeyAndValue(body, field, quoted)
  {
    hide FirstMatch, SkipWs, FindFrom, OccursAt, Key;
    var key := Key(field);
    var from := 0;
    while true
      invariant from <= |body|
      invariant FirstMatch(body, field, quoted, from) == FirstMatch(body, field, quoted, 0)
      decreases |body| - from
    {
      var found := FindFrom(body, key, from);
      SearchMoves(body, field, quoted, from);
      if found.None? {
        return None;
      }
      var start := found.value;
      var colon := SkipJsonWhitespace(body, start + |key|);
      assert colon == ColonAt(body, field, start);
      if colon < |body| && body[colon] == COLON {
        var value := SkipJsonWhitespace(body, colon + 1);
        assert value == ValueAt(body, field, start);
        if !quoted || (value < |body| && body[value] == QUOTE) {
          return Some((start, value));
        }
      }
      from := start + 1;
    }
  }

  // ----- members -----

  /** The first `"field":"value"` member of `body`, with offsets into `body`. */
  function InBody(body: bytes, field: bytes): (r: Option<JsonMember>)
    ensures r.Some? ==> Fits(r.value.member, body) && Fits(r.value.value, body)
  {
    match KeyAndValue(body, field, true)
    case None => None
    case Some((start, quote)) =>
      match FindByte(body, QUOTE, quote + 1)
      case None => None
      case Some(close) => Some(JsonMember(Range(start, close + 1), Range(quote + 1, close)))
  }

  /** What a found member is: the quoted name, whitespace around a colon, and a
      quoted value that holds no quote. */
  ghost predicate IsMember(body: bytes, field: bytes, m: JsonMember) {
    && Fits(m.member, body)
    && MatchesAt(body, field, true, m.member.start)
    && m.value.start == ValueAt(body, field, m.member.start) + 1
    && m.member.start + |field| + 2 < m.value.start - 1
    && m.value.start <= m.value.end && m.member.end == m.value.end + 1
    && body[m.value.start - 1] == QUOTE == body[m.value.end]
    && forall i | m.value.start <= i < m.value.end :: body[i] != QUOTE
  }

  /** The scan returns the first member, whole. */
  lemma FoundIsFirstMember(body: bytes, field: bytes, m: JsonMember)
    requires InBody(body, field) == Some(m)
    ensures IsMember(body, field, m) && FirstMatch(body, field, true, 0) == Some(m.member.start)
    ensures forall i: nat | i < m.member.start :: !MatchesAt(body, field, true, i)
  {
    FirstMatchIsFirst(body, field, true, 0);
  }

  lemma FirstMemberIsFound(body: bytes, field: bytes, m: JsonMember)
    requires IsMember(body, field, m) && FirstMatch(body, field, true, 0) == Some(m.member.start)
    ensures InBody(body, field) == Some(m)
  {
    FindByteIs(body, QUOTE, m.value.start, m.value.end);
  }

  function DigitRun(body: bytes, from: nat): (end: nat)
    ensures from <= end && (end == from || end <= |body|)
    ensures forall i | from <= i < end :: IsDigit(body[i])
    ensures end < |body| ==> !IsDigit(body[end])
    decreases |body| - from
  {
    if from < |body| && IsDigit(body[from]) then DigitRun(body, from + 1) else from
  }

  /** The first `"field":<number>` member with the `,` or `}` that closes it. */
  function BareSnippet(body: bytes, field: bytes): (r: Option<Range>)
    ensures r.Some? ==> Fits(r.value, body)
  {
    match KeyAndValue(body, field, false)
    case None => None
    case Some((start, digits)) =>
      var end := DigitRun(body, digits);
      var width := end - digits;
      if width == 0 then None
      else if width > 1 && body[digits] == 48 then None
      else
        var term := SkipWs(body, end);
        if term < |body| && (body[term] == COMMA || body[term] == CLOSE_BRACE)
        then Some(Range(start, term + 1)) else None
  }

  /** What a found number is: the quoted name, whitespace around a colon, the
      whole canonical run of digits, and the byte that closes it. */
  ghost predicate IsBare(body: bytes, field: bytes, r: Range) {
    var digits := ValueAt(body, field, r.start);
    var end := DigitRun(body, digits);
    && MatchesAt(body, field, false, r.start)
    && r.start + |field| + 2 < digits < end && (body[digits] == 48 ==> end == digits + 1)
    && r.end == SkipWs(body, end) + 1 <= |body|
    && (body[r.end - 1] == COMMA || body[r.end - 1] == CLOSE_BRACE)
  }

  lemma FoundIsFirstBare(body: bytes, field: bytes, r: Range)
    requires BareSnippet(body, field) == Some(r)
    ensures IsBare(body, field, r) && FirstMatch(body, field, false, 0) == Some(r.start)
    ensures forall i: nat | i < r.start :: !MatchesAt(body, field, false, i)
  {
    hide MatchesAt, FirstMatch, SkipWs, DigitRun;
    FirstMatchIsFirst(body, field, false, 0);
  }

  lemma FirstBareIsFound(body: bytes, field: bytes, r: Range)
    requires IsBare(body, field, r) && FirstMatch(body, field, false, 0) == Some(r.start)
    ensures BareSnippet(body, field) == Some(r)
  {
  }
}
