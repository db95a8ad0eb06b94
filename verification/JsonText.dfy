/** JSON texts as token sequences with whitespace between the tokens, and what
    the byte scanners of `JsonScan` find in them. */
module JsonText {
  import opened Wrappers
  import opened Octets
  import opened JsonScan

  // ----- tokens -----

  /** A string without escapes, a structural byte, or any other literal. */
  datatype Token = Quoted(content: bytes) | Punct(b: byte) | Bare(text: bytes)

  datatype Spaced = Spaced(ws: bytes, token: Token)

  predicate IsPunct(b: byte) { b == COMMA || b == COLON || b == OPEN_BRACE || b == CLOSE_BRACE || b == OPEN_BRACKET || b == CLOSE_BRACKET }

  predicate AllWs(s: bytes) { forall i | 0 <= i < |s| :: IsWs(s[i]) }

  predicate ValidToken(t: Token) {
    match t
    case Quoted(content) => Without(content, QUOTE)
    case Punct(b) => IsPunct(b)
    case Bare(text) => text != [] && forall i | 0 <= i < |text| :: !IsPunct(text[i]) && !IsWs(text[i]) && text[i] != QUOTE
  }

  function Spell(t: Token): (s: bytes)
    ensures ValidToken(t) ==> |s| > 0
  {
    match t
    case Quoted(content) => Key(content)
    case Punct(b) => [b]
    case Bare(text) => text
  }

  /** The bytes of a token sequence, each token after its whitespace. */
  function Text(ts: seq<Spaced>, trail: bytes): bytes {
    if ts == [] then trail else ts[0].ws + Spell(ts[0].token) + Text(ts[1..], trail)
  }

  /** Valid tokens and whitespace, and a scalar is followed by structure only, as in JSON. */
  predicate WellFormed(ts: seq<Spaced>, trail: bytes) {
    && AllWs(trail)
    && (forall i | 0 <= i < |ts| :: AllWs(ts[i].ws) && ValidToken(ts[i].token))
    && (forall i | 0 <= i < |ts| - 1 :: !ts[i].token.Punct? ==> ts[i + 1].token.Punct?)
  }

  /** A name the repository's profiles use: it opens with a letter and holds no quote. */
  predicate IsName(field: bytes) { field != [] && IsLetter(field[0]) && Without(field, QUOTE) }

  /** The sequence opens with the member the scan looks for. */
  predicate OpensMember(ts: seq<Spaced>, field: bytes, quoted: bool) {
    && |ts| >= 2 && ts[0].token == Quoted(field) && ts[1].token == Punct(COLON)
    && (quoted ==> |ts| >= 3 && ts[2].token.Quoted?)
  }

  /** The index of the first token that opens such a member. */
  function TokenScan(ts: seq<Spaced>, field: bytes, quoted: bool): (r: Option<nat>)
    ensures r.Some? ==> r.value < |ts|
  {
    if ts == [] then None
    else if OpensMember(ts, field, quoted) then Some(0)
    else
      match TokenScan(ts[1..], field, quoted)
      case None => None
      case Some(i) => Some(i + 1)
  }

  lemma {:induction false} TokenScanIsFirst(ts: seq<Spaced>, field: bytes, quoted: bool)
    ensures match TokenScan(ts, field, quoted)
            case None => forall i | 0 <= i < |ts| :: !OpensMember(ts[i..], field, quoted)
            case Some(n) => OpensMember(ts[n..], field, quoted) &&
                            forall i | 0 <= i < n :: !OpensMember(ts[i..], field, quoted)
  {
    hide OpensMember;
    if ts != [] {
      assert ts[0..] == ts;
      if !OpensMember(ts, field, quoted) {
        TokenScanIsFirst(ts[1..], field, quoted);
        forall i | 1 <= i < |ts| ensures ts[i..] == ts[1..][i - 1..] {}
      }
    }
  }

  /** The offset of token `i`'s whitespace, and of its first byte. */
  function Offset(ts: seq<Spaced>, i: nat): nat
    requires i <= |ts|
  {
    if i == 0 then 0 else |ts[0].ws| + |Spell(ts[0].token)| + Offset(ts[1..], i - 1)
  }

  function Start(ts: seq<Spaced>, i: nat): nat
    requires i < |ts|
  {
    Offset(ts, i) + |ts[i].ws|
  }

  // ----- the byte scan, token by token -----

  /** `body` from `off` to its end is the text of `ts`. */
  ghost predicate Holds(body: bytes, off: nat, ts: seq<Spaced>, trail: bytes) {
    off + |Text(ts, trail)| == |body| && Agree(body, off, Text(ts, trail), 0, |Text(ts, trail)|)
  }

  lemma HoldsNext(body: bytes, off: nat, ts: seq<Spaced>, trail: bytes)
    requires Holds(body, off, ts, trail) && ts != []
    ensures var o, n := off + |ts[0].ws|, |Spell(ts[0].token)|;
            && o + n <= |body|
            && Agree(body, off, ts[0].ws, 0, |ts[0].ws|)
            && Agree(body, o, Spell(ts[0].token), 0, n)
            && Holds(body, o + n, ts[1..], trail)
  {
    var w, s, rest := ts[0].ws, Spell(ts[0].token), Text(ts[1..], trail);
    var all := Text(ts, trail);
    assert all == w + s + rest;
    AgreePart(body, off, all, 0, |all|, 0, |w|);
    AgreePart(body, off, all, 0, |all|, |w|, |s|);
    AgreePart(body, off, all, 0, |all|, |w| + |s|, |rest|);
  }

  lemma WellFormedNext(ts: seq<Spaced>, trail: bytes)
    requires WellFormed(ts, trail) && ts != []
    ensures WellFormed(ts[1..], trail)
  {
  }

  // Skipping whitespace lands on the next token.
  lemma SkipToToken(body: bytes, off: nat, ts: seq<Spaced>, trail: bytes)
    requires Holds(body, off, ts, trail) && WellFormed(ts, trail)
    ensures ts == [] ==> SkipWs(body, off) == |body|
    ensures ts != [] ==>
              SkipWs(body, off) == off + |ts[0].ws| < |body| &&
              body[off + |ts[0].ws|] == Spell(ts[0].token)[0] && !IsWs(Spell(ts[0].token)[0])
  {
    if ts == [] {
      SkipToEnd(body, off);
    } else {
      HoldsNext(body, off, ts, trail);
      var o := off + |ts[0].ws|;
      assert body[o] == Spell(ts[0].token)[0];
      assert ValidToken(ts[0].token) && AllWs(ts[0].ws);
      SkipWsIs(body, off, o);
    }
  }

  lemma SkipToEnd(body: bytes, off: nat)
    requires off <= |body| && forall i | off <= i < |body| :: IsWs(body[i])
    ensures SkipWs(body, off) == |body|
    decreases |body| - off
  {
    if off < |body| { SkipToEnd(body, off + 1); }
  }

  // What a spelled token opens with tells its kind.
  lemma FirstByteTellsKind(t: Token)
    requires ValidToken(t)
    ensures Spell(t)[0] == COLON <==> t == Punct(COLON)
    ensures Spell(t)[0] == QUOTE <==> t.Quoted?
  {
  }

  // The key occurs at a string token only when it is that string.
  lemma KeyAtString(body: bytes, o: nat, content: bytes, field: bytes)
    requires Agree(body, o, Spell(Quoted(content)), 0, |Spell(Quoted(content))|)
    requires Without(content, QUOTE) && Without(field, QUOTE)
    ensures OccursAt(body, Key(field), o) <==> content == field
  {
    if OccursAt(body, Key(field), o) {
      var n := if |content| < |field| then |content| else |field|;
      assert body[o + n + 1] == Key(content)[n + 1];
      assert body[o + n + 1] == Key(field)[n + 1];
      assert |content| == |field|;
      forall i | 0 <= i < |field| ensures content[i] == field[i] {
        assert body[o + i + 1] == Key(content)[i + 1] == Key(field)[i + 1];
      }
    }
  }

  // The byte the scan takes for the colon after a string, and whether it is one.
  lemma ColonAfterString(body: bytes, off: nat, ts: seq<Spaced>, trail: bytes, field: bytes)
    requires Holds(body, off, ts, trail) && WellFormed(ts, trail) && ts != [] && ts[0].token == Quoted(field)
    ensures var o := off + |ts[0].ws|;
            && (|ts| == 1 ==> ColonAt(body, field, o) == |body|)
            && (|ts| > 1 ==>
                  && ColonAt(body, field, o) == o + |field| + 2 + |ts[1].ws| < |body|
                  && (body[ColonAt(body, field, o)] == COLON <==> ts[1].token == Punct(COLON)))
  {
    hide Text, Agree, SkipWs;
    var o, more := off + |ts[0].ws|, ts[1..];
    HoldsNext(body, off, ts, trail);
    WellFormedNext(ts, trail);
    SkipToToken(body, o + |field| + 2, more, trail);
    if more != [] {
      assert more[0] == ts[1];
      FirstByteTellsKind(ts[1].token);
    }
  }

  // The byte the scan takes for the value, and whether it is a quote.
  lemma ValueAfterColon(body: bytes, off: nat, ts: seq<Spaced>, trail: bytes, field: bytes)
    requires Holds(body, off, ts, trail) && WellFormed(ts, trail)
    requires |ts| >= 2 && ts[0].token == Quoted(field) && ts[1].token == Punct(COLON)
    ensures var o := off + |ts[0].ws|;
            && (|ts| == 2 ==> ValueAt(body, field, o) == |body|)
            && (|ts| > 2 ==>
                  && ValueAt(body, field, o) == off + Start(ts, 2) < |body|
                  && (body[ValueAt(body, field, o)] == QUOTE <==> ts[2].token.Quoted?))
  {
    hide Text, Agree, SkipWs, ColonAt, Start;
    var o := off + |ts[0].ws|;
    ColonAfterString(body, off, ts, trail, field);
    HoldsNext(body, off, ts, trail);
    WellFormedNext(ts, trail);
    var next, more := o + |field| + 2, ts[1..];
    assert more[0] == ts[1];
    HoldsNext(body, next, more, trail);
    WellFormedNext(more, trail);
    SkipToToken(body, next + |ts[1].ws| + 1, more[1..], trail);
    if |ts| > 2 {
      assert more[1..][0] == ts[2];
      FirstByteTellsKind(ts[2].token);
      OffsetTwo(ts);
    }
  }

  /** At a string token, the scan matches exactly where the tokens open the member. */
  lemma MatchAtString(body: bytes, off: nat, ts: seq<Spaced>, trail: bytes, field: bytes, quoted: bool)
    requires Holds(body, off, ts, trail) && WellFormed(ts, trail) && IsName(field)
    requires ts != [] && ts[0].token.Quoted?
    ensures MatchesAt(body, field, quoted, off + |ts[0].ws|) <==> OpensMember(ts, field, quoted)
    ensures OpensMember(ts, field, quoted) ==>
              ValueAt(body, field, off + |ts[0].ws|) == if |ts| > 2 then off + Start(ts, 2) else |body|
  {
    hide Text, Agree, SkipWs, ColonAt, ValueAt, Start, OccursAt, Key, Spell;
    var o := off + |ts[0].ws|;
    HoldsNext(body, off, ts, trail);
    TokenIsValid(ts, trail, 0);
    KeyAtString(body, o, ts[0].token.content, field);
    if ts[0].token == Quoted(field) {
      ColonAfterString(body, off, ts, trail, field);
      if |ts| > 1 && ts[1].token == Punct(COLON) { ValueAfterColon(body, off, ts, trail, field); }
    }
  }

  lemma OffsetTwo(ts: seq<Spaced>)
    requires |ts| >= 3
    ensures Start(ts, 2) == |ts[0].ws| + |Spell(ts[0].token)| + |ts[1].ws| + |Spell(ts[1].token)| + |ts[2].ws|
  {
    assert Offset(ts[1..], 1) == |ts[1].ws| + |Spell(ts[1].token)| + Offset(ts[1..][1..], 0);
  }

  /** Nowhere else in a token, or in the whitespace before it, does the scan match. */
  lemma NoMatchInside(body: bytes, off: nat, ts: seq<Spaced>, trail: bytes, field: bytes, quoted: bool, i: nat)
    requires Holds(body, off, ts, trail) && WellFormed(ts, trail) && IsName(field) && ts != []
    requires off <= i < off + |ts[0].ws| + |Spell(ts[0].token)|
    requires ts[0].token.Quoted? ==> i != off + |ts[0].ws|
    ensures !MatchesAt(body, field, quoted, i)
  {
    hide Text;
    HoldsNext(body, off, ts, trail);
    var o, n := off + |ts[0].ws|, |Spell(ts[0].token)|;
    var t := ts[0].token;
    assert AllWs(ts[0].ws) && ValidToken(t);
    assert Key(field)[0] == QUOTE && Key(field)[1] == field[0];
    assert MatchesAt(body, field, quoted, i) ==> i < |body| && body[i] == Key(field)[0];
    if i < o {
      assert body[i] == ts[0].ws[i - off] && IsWs(ts[0].ws[i - off]);
    } else if t.Quoted? && i == o + n - 1 {
      assert MatchesAt(body, field, quoted, i) ==> i + 1 < |body| && body[i + 1] == Key(field)[1];
      ByteAfterString(body, off, ts, trail);
    } else {
      assert body[i] == Spell(t)[i - o] != QUOTE;
    }
  }

  lemma ByteAfterString(body: bytes, off: nat, ts: seq<Spaced>, trail: bytes)
    requires Holds(body, off, ts, trail) && WellFormed(ts, trail)
    requires ts != [] && ts[0].token.Quoted?
    ensures var e := off + |ts[0].ws| + |Spell(ts[0].token)|; e < |body| ==> !IsLetter(body[e])
  {
    hide Text, Agree;
    HoldsNext(body, off, ts, trail);
    WellFormedNext(ts, trail);
    var e, more := off + |ts[0].ws| + |Spell(ts[0].token)|, ts[1..];
    if e < |body| {
      SkipToToken(body, e, more, trail);
      if more != [] { assert more[0] == ts[1]; }
    }
  }

  /** The byte scan is the token scan. */
  lemma {:induction false} ScanIsTokenScan(body: bytes, off: nat, ts: seq<Spaced>, trail: bytes, field: bytes,
                                           quoted: bool)
    requires Holds(body, off, ts, trail) && WellFormed(ts, trail) && IsName(field)
    ensures FirstMatch(body, field, quoted, off) ==
            match TokenScan(ts, field, quoted) { case None => None case Some(i) => Some(off + Start(ts, i)) }
    decreases |ts|
  {
    hide Text, Agree, WellFormed, FirstMatch, OpensMember, Holds;
    if ts == [] {
      NoMatchInTrail(body, off, trail, field, quoted);
    } else {
      ScanStep(body, off, ts, trail, field, quoted);
      if !OpensMember(ts, field, quoted) {
        HoldsNext(body, off, ts, trail);
        WellFormedNext(ts, trail);
        ScanIsTokenScan(body, off + |ts[0].ws| + |Spell(ts[0].token)|, ts[1..], trail, field, quoted);
      }
    }
  }

  // The byte scan stops at a token that opens the member, and passes any other whole.
  lemma ScanStep(body: bytes, off: nat, ts: seq<Spaced>, trail: bytes, field: bytes, quoted: bool)
    requires Holds(body, off, ts, trail) && WellFormed(ts, trail) && IsName(field) && ts != []
    ensures var o := off + |ts[0].ws|;
            FirstMatch(body, field, quoted, off) ==
            if OpensMember(ts, field, quoted) then Some(o)
            else FirstMatch(body, field, quoted, o + |Spell(ts[0].token)|)
  {
    hide Text, Agree, MatchesAt, WellFormed, FirstMatch;
    var o := off + |ts[0].ws|;
    var next := o + |Spell(ts[0].token)|;
    forall i | off <= i < next && (ts[0].token.Quoted? ==> i != o) ensures !MatchesAt(body, field, quoted, i) {
      NoMatchInside(body, off, ts, trail, field, quoted, i);
    }
    if ts[0].token.Quoted? { MatchAtString(body, off, ts, trail, field, quoted); }
    if OpensMember(ts, field, quoted) {
      FirstMatchIs(body, field, quoted, off, o);
    } else {
      HoldsNext(body, off, ts, trail);
      FirstMatchMoves(body, field, quoted, off, next);
    }
  }

  lemma FirstMatchMoves(body: bytes, field: bytes, quoted: bool, from: nat, until: nat)
    requires from <= until <= |body|
    requires forall i: nat | from <= i < until :: !MatchesAt(body, field, quoted, i)
    ensures FirstMatch(body, field, quoted, from) == FirstMatch(body, field, quoted, until)
    decreases until - from
  {
    hide MatchesAt;
    if from < until { FirstMatchMoves(body, field, quoted, from + 1, until); }
  }

  lemma NoMatchInTrail(body: bytes, off: nat, trail: bytes, field: bytes, quoted: bool)
    requires Holds(body, off, [], trail) && WellFormed([], trail)
    ensures FirstMatch(body, field, quoted, off) == None
  {
    forall i: nat | off <= i < |body| ensures !MatchesAt(body, field, quoted, i) {
      assert Key(field)[0] == QUOTE && IsWs(body[i]);
    }
    FirstMatchMoves(body, field, quoted, off, |body|);
  }

  lemma {:induction false} HoldsFrom(body: bytes, off: nat, ts: seq<Spaced>, trail: bytes, i: nat)
    requires Holds(body, off, ts, trail) && WellFormed(ts, trail) && i <= |ts|
    ensures Holds(body, off + Offset(ts, i), ts[i..], trail) && WellFormed(ts[i..], trail)
    decreases i
  {
    hide Text, Agree;
    if i == 0 {
      assert ts[0..] == ts;
    } else {
      HoldsNext(body, off, ts, trail);
      WellFormedNext(ts, trail);
      HoldsFrom(body, off + |ts[0].ws| + |Spell(ts[0].token)|, ts[1..], trail, i - 1);
      assert ts[i..] == ts[1..][i - 1..];
    }
  }

  lemma {:induction false} OffsetsAdd(ts: seq<Spaced>, i: nat, k: nat)
    requires i + k <= |ts|
    ensures Offset(ts, i + k) == Offset(ts, i) + Offset(ts[i..], k)
  {
    if i == 0 {
      assert ts[0..] == ts;
    } else {
      OffsetsAdd(ts[1..], i - 1, k);
      assert ts[i..] == ts[1..][i - 1..];
    }
  }

  // Where a token of the text sits, and that the text holds it there.
  lemma TokenAt(ts: seq<Spaced>, trail: bytes, i: nat)
    requires WellFormed(ts, trail) && i < |ts|
    ensures Start(ts, i) + |Spell(ts[i].token)| <= |Text(ts, trail)|
    ensures Agree(Text(ts, trail), Start(ts, i), Spell(ts[i].token), 0, |Spell(ts[i].token)|)
  {
    hide Text, Holds, WellFormed, Agree;
    TextHolds(ts, trail);
    HoldsFrom(Text(ts, trail), 0, ts, trail, i);
    HoldsNext(Text(ts, trail), Offset(ts, i), ts[i..], trail);
  }

  lemma MatchedValueAt(ts: seq<Spaced>, trail: bytes, field: bytes, quoted: bool, i: nat)
    requires WellFormed(ts, trail) && IsName(field) && i < |ts| && OpensMember(ts[i..], field, quoted)
    ensures MatchesAt(Text(ts, trail), field, quoted, Start(ts, i))
    ensures ValueAt(Text(ts, trail), field, Start(ts, i)) ==
            if i + 2 < |ts| then Start(ts, i + 2) else |Text(ts, trail)|
  {
    hide Text, Agree, MatchesAt, ValueAt, WellFormed, Holds;
    TextHolds(ts, trail);
    HoldsFrom(Text(ts, trail), 0, ts, trail, i);
    MatchAtString(Text(ts, trail), Offset(ts, i), ts[i..], trail, field, quoted);
    if i + 2 < |ts| { OffsetsAdd(ts, i, 2); }
  }

  lemma ScanOfText(ts: seq<Spaced>, trail: bytes, field: bytes, quoted: bool)
    requires WellFormed(ts, trail) && IsName(field)
    ensures FirstMatch(Text(ts, trail), field, quoted, 0) ==
            match TokenScan(ts, field, quoted) { case None => None case Some(i) => Some(Start(ts, i)) }
  {
    hide Text, WellFormed;
    assert Holds(Text(ts, trail), 0, ts, trail) by { TextHolds(ts, trail); }
    ScanIsTokenScan(Text(ts, trail), 0, ts, trail, field, quoted);
  }

  lemma TextHolds(ts: seq<Spaced>, trail: bytes)
    ensures Holds(Text(ts, trail), 0, ts, trail)
  {
    hide Text;
  }

  /** The quoted scan of a JSON text returns exactly the first member with that
      name and a string value, from the name's quote through the value's. */
  lemma QuotedScanOfText(ts: seq<Spaced>, trail: bytes, field: bytes)
    requires WellFormed(ts, trail) && IsName(field)
    ensures match TokenScan(ts, field, true)
            case None => InBody(Text(ts, trail), field) == None
            case Some(i) =>
              i + 2 < |ts| && ts[i + 2].token.Quoted? &&
              var v := Start(ts, i + 2) + 1;
              var n := |ts[i + 2].token.content|;
              InBody(Text(ts, trail), field) == Some(JsonMember(Range(Start(ts, i), v + n + 1), Range(v, v + n))) &&
              Agree(Text(ts, trail), v, ts[i + 2].token.content, 0, n)
  {
    hide Text, MatchesAt, FirstMatch, WellFormed, ValueAt, Start, Agree, InBody, TokenScan, Spell, AllWs;
    ScanOfText(ts, trail, field, true);
    TokenScanIsFirst(ts, field, true);
    if TokenScan(ts, field, true).None? {
      NothingMatched(Text(ts, trail), field, true);
    } else {
      var i := TokenScan(ts, field, true).value;
      assert ts[i..][2] == ts[i + 2];
      MatchedValueAt(ts, trail, field, true, i);
      TokenAt(ts, trail, i + 2);
      TokenIsValid(ts, trail, i + 2);
      StringMember(Text(ts, trail), field, Start(ts, i), ts[i + 2].token.content);
    }
  }

  lemma TokenIsValid(ts: seq<Spaced>, trail: bytes, i: nat)
    requires WellFormed(ts, trail) && i < |ts|
    ensures ValidToken(ts[i].token) && AllWs(ts[i].ws)
  {
  }

  lemma StringMember(body: bytes, field: bytes, start: nat, content: bytes)
    requires FirstMatch(body, field, true, 0) == Some(start) && MatchesAt(body, field, true, start)
    requires Agree(body, ValueAt(body, field, start), Spell(Quoted(content)), 0, |Spell(Quoted(content))|)
    requires Without(content, QUOTE)
    ensures var v := ValueAt(body, field, start) + 1;
            InBody(body, field) ==
            Some(JsonMember(Range(start, v + |content| + 1), Range(v, v + |content|))) &&
            Agree(body, v, content, 0, |content|)
  {
    hide FirstMatch, MatchesAt, ValueAt, InBody;
    var q, n := ValueAt(body, field, start), |content|;
    var k := Spell(Quoted(content));
    assert k[0] == QUOTE && k[n + 1] == QUOTE && |k| == n + 2;
    forall i | q < i <= q + n ensures body[i] == content[i - q - 1] { assert body[i] == k[i - q]; }
    FirstMemberIsFound(body, field, JsonMember(Range(start, q + n + 2), Range(q + 1, q + 1 + n)));
  }

  // ----- numbers -----

  predicate AllDigits(s: bytes) { forall i | 0 <= i < |s| :: IsDigit(s[i]) }

  /** Digits without a leading zero, `0` itself allowed. */
  predicate CanonicalNat(s: bytes) { s != [] && AllDigits(s) && (|s| > 1 ==> s[0] != 48) }

  /** The value two tokens on is a canonical number that `,` or `}` closes. */
  predicate ClosedNumber(ts: seq<Spaced>, i: nat) {
    && i + 3 < |ts| && ts[i + 2].token.Bare? && CanonicalNat(ts[i + 2].token.text)
    && (ts[i + 3].token == Punct(COMMA) || ts[i + 3].token == Punct(CLOSE_BRACE))
  }

  lemma DigitRunIs(body: bytes, from: nat, end: nat)
    requires from <= end <= |body|
    requires forall i | from <= i < end :: IsDigit(body[i])
    requires end < |body| ==> !IsDigit(body[end])
    ensures DigitRun(body, from) == end
    decreases end - from
  {
    if from < end { DigitRunIs(body, from + 1, end); }
  }

  // What follows a scalar: where its whitespace ends, and with which token.
  lemma AfterScalar(ts: seq<Spaced>, trail: bytes, j: nat)
    requires WellFormed(ts, trail) && j < |ts| && !ts[j].token.Punct?
    ensures var e := Start(ts, j) + |Spell(ts[j].token)|;
            var body := Text(ts, trail);
            && (e < |body| ==> !IsDigit(body[e]))
            && (j + 1 == |ts| ==> SkipWs(body, e) == |body|)
            && (j + 1 < |ts| ==>
                  ts[j + 1].token.Punct? && SkipWs(body, e) == Start(ts, j + 1) < |body| &&
                  body[Start(ts, j + 1)] == ts[j + 1].token.b)
  {
    hide Text, Agree, Holds;
    var body, e := Text(ts, trail), Offset(ts, j + 1);
    OffsetsAdd(ts, j, 1);
    OffsetOne(ts[j..]);
    TextHolds(ts, trail);
    HoldsFrom(body, 0, ts, trail, j + 1);
    SkipToToken(body, e, ts[j + 1..], trail);
    if j + 1 < |ts| { assert ts[j + 1..][0] == ts[j + 1]; }
  }

  lemma OffsetOne(ts: seq<Spaced>)
    requires ts != []
    ensures Offset(ts, 1) == |ts[0].ws| + |Spell(ts[0].token)|
  {
    assert Offset(ts[1..], 0) == 0;
  }

  /** The bare scan of a JSON text returns the first member with that name exactly
      when its value is a canonical number, through the `,` or `}` that closes
      it; every other value, of any kind, is refused. */
  lemma BareScanOfText(ts: seq<Spaced>, trail: bytes, field: bytes)
    requires WellFormed(ts, trail) && IsName(field)
    ensures match TokenScan(ts, field, false)
            case None => BareSnippet(Text(ts, trail), field) == None
            case Some(i) =>
              BareSnippet(Text(ts, trail), field) ==
              if ClosedNumber(ts, i) then Some(Range(Start(ts, i), Start(ts, i + 3) + 1)) else None
  {
    hide Text, MatchesAt, FirstMatch, WellFormed, ValueAt, Start, ClosedNumber, BareSnippet;
    ScanOfText(ts, trail, field, false);
    TokenScanIsFirst(ts, field, false);
    if TokenScan(ts, field, false).None? {
      NothingMatched(Text(ts, trail), field, false);
    } else {
      var i := TokenScan(ts, field, false).value;
      MatchedValueAt(ts, trail, field, false, i);
      if i + 2 < |ts| {
        ValueRead(ts, trail, field, i);
      } else {
        NothingAfterColon(ts, trail, field, i);
      }
    }
  }

  lemma NothingMatched(body: bytes, field: bytes, quoted: bool)
    requires FirstMatch(body, field, quoted, 0) == None
    ensures if quoted then InBody(body, field) == None else BareSnippet(body, field) == None
  {
  }

  lemma NothingAfterColon(ts: seq<Spaced>, trail: bytes, field: bytes, i: nat)
    requires i < |ts| <= i + 2 && FirstMatch(Text(ts, trail), field, false, 0) == Some(Start(ts, i))
    requires ValueAt(Text(ts, trail), field, Start(ts, i)) == |Text(ts, trail)|
    ensures !ClosedNumber(ts, i) && BareSnippet(Text(ts, trail), field) == None
  {
    hide Text, FirstMatch, ValueAt, Start;
  }

  lemma ValueRead(ts: seq<Spaced>, trail: bytes, field: bytes, i: nat)
    requires WellFormed(ts, trail) && i + 2 < |ts|
    requires FirstMatch(Text(ts, trail), field, false, 0) == Some(Start(ts, i))
    requires ValueAt(Text(ts, trail), field, Start(ts, i)) == Start(ts, i + 2)
    ensures BareSnippet(Text(ts, trail), field) ==
            if ClosedNumber(ts, i) then Some(Range(Start(ts, i), Start(ts, i + 3) + 1)) else None
  {
    hide Text, FirstMatch, ValueAt, Start, WellFormed, SkipWs, DigitRun;
    var body, at, t := Text(ts, trail), Start(ts, i + 2), ts[i + 2].token;
    TokenIsValid(ts, trail, i + 2);
    TokenAt(ts, trail, i + 2);
    assert body[at] == Spell(t)[0];
    if t.Bare? {
      AfterScalar(ts, trail, i + 2);
      if AllDigits(t.text) {
        DigitRunIs(body, at, at + |t.text|);
      } else {
        var k := DigitRun(t.text, 0);
        DigitPrefix(body, at, t.text);
        SkipWsIs(body, at + k, at + k);
      }
    } else {
      DigitRunIs(body, at, at);
    }
  }

  // The digit run of a token that is not all digits ends on a byte of the token.
  lemma DigitPrefix(body: bytes, at: nat, text: bytes)
    requires Agree(body, at, text, 0, |text|) && !AllDigits(text)
    ensures var k := DigitRun(text, 0); k < |text| && DigitRun(body, at) == at + k && body[at + k] == text[k]
  {
    var k := DigitRun(text, 0);
    assert body[at + k] == text[k];
    DigitRunIs(body, at, at + k);
  }
}
