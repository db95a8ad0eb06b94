/** The bare form without a condition on CR: a number runs through chunk framing only
    where the decoded body has a name and a colon and no value -- never in a document. */
module BareNumbers {
  import opened Wrappers
  import opened Octets
  import opened Chunked
  import opened Offsets
  import opened JsonScan
  import opened JsonText
  import opened JsonDocument
  import opened Response
  import opened Contiguity
  import opened IdentityDocument

  /** The name and the colon at `i`, and then the body's end, a comma or a brace. */
  predicate Valueless(body: bytes, field: bytes, i: nat) {
    var v := ValueAt(body, field, i);
    MatchesAt(body, field, false, i) && (v < |body| ==> body[v] == COMMA || body[v] == CLOSE_BRACE)
  }

  // ----- scans that meet a seam -----

  lemma SkipStops(body: bytes, from: nat, x: nat)
    requires from <= x < |body| && !IsWs(body[x])
    ensures SkipWs(body, from) <= x
  {
  }

  lemma DigitsStop(body: bytes, from: nat, x: nat)
    requires from <= x < |body| && !IsDigit(body[x])
    ensures DigitRun(body, from) <= x
  {
  }

  lemma SeamEnds(raw: bytes, s: nat, k: nat)
    requires Seam(raw, s, k)
    ensures k > 0 && s + 4 + k <= |raw| && raw[s] == CR && raw[s + 1] == LF && IsHexDigit(raw[s + 2])
    ensures raw[s + 2 + k] == CR && raw[s + 3 + k] == LF
  {
  }

  lemma SeamDigit(raw: bytes, s: nat, k: nat, i: nat)
    requires Seam(raw, s, k) && s + 2 <= i < s + 2 + k
    ensures i < |raw| && SkipWs(raw, i) == i && raw[i] != COMMA && raw[i] != CLOSE_BRACE
  {
  }

  // A seam stops a terminator: whitespace reaches its digits at most, and they are none.
  lemma TerminatorBeforeSeam(raw: bytes, s: nat, k: nat, from: nat)
    requires Seam(raw, s, k) && from <= s
    requires var t := SkipWs(raw, from); t < |raw| && (raw[t] == COMMA || raw[t] == CLOSE_BRACE)
    ensures SkipWs(raw, from) < s
  {
    hide Seam, SkipWs;
    SeamEnds(raw, s, k);
    SkipStops(raw, from, s + 2);
  }

  // The digits begin before the seam: then all of the member does.
  lemma DigitsBeforeSeam(raw: bytes, s: nat, k: nat, field: bytes, r: Range)
    requires Seam(raw, s, k) && IsBare(raw, field, r) && ValueAt(raw, field, r.start) < s
    ensures r.end <= s
  {
    hide MatchesAt, ValueAt;
    var v := ValueAt(raw, field, r.start);
    SeamEnds(raw, s, k);
    DigitsStop(raw, v, s);
    TerminatorBeforeSeam(raw, s, k, DigitRun(raw, v));
  }

  // Or the seam's own size line is taken for the number, whole.
  lemma SizeTakenForNumber(raw: bytes, s: nat, k: nat, field: bytes, r: Range)
    requires Seam(raw, s, k) && IsBare(raw, field, r)
    requires ColonAt(raw, field, r.start) < s <= ValueAt(raw, field, r.start)
    ensures SkipWs(raw, s + 4 + k) + 1 == r.end
    ensures forall i | ColonAt(raw, field, r.start) < i < s :: IsWs(raw[i])
  {
    hide MatchesAt, ColonAt, IsBare, Seam, SkipWs, DigitRun;
    BareParts(raw, field, r);
    SeamEnds(raw, s, k);
    var c := ColonAt(raw, field, r.start);
    var v := SkipWs(raw, c + 1);
    var e := DigitRun(raw, v);
    SkipStops(raw, c + 1, s + 2);
    assert IsDigit(raw[v]);
    DigitsStop(raw, v, s + 2 + k);
    if e < s + 2 + k { SeamDigit(raw, s, k, e); }
    SkipTwo(raw, s + 2 + k);
  }

  lemma BareParts(raw: bytes, field: bytes, r: Range)
    requires IsBare(raw, field, r)
    ensures var v := ValueAt(raw, field, r.start);
            v < DigitRun(raw, v) <= |raw| && r.end == SkipWs(raw, DigitRun(raw, v)) + 1 <= |raw| &&
            (raw[r.end - 1] == COMMA || raw[r.end - 1] == CLOSE_BRACE)
  {
    hide MatchesAt, ValueAt;
  }

  lemma SkipTwo(raw: bytes, e: nat)
    requires e + 2 <= |raw| && raw[e] == CR && raw[e + 1] == LF
    ensures SkipWs(raw, e) == SkipWs(raw, e + 2)
  {
    assert SkipWs(raw, e) == SkipWs(raw, e + 1);
  }

  lemma SkipReaches(body: bytes, from: nat, until: nat)
    requires from <= until <= |body| && forall i | from <= i < until :: IsWs(body[i])
    ensures SkipWs(body, from) == SkipWs(body, until)
    decreases until - from
  {
    if from < until { SkipReaches(body, from + 1, until); }
  }

  // In the decoded body whitespace then runs from the colon to the chunk's end, and on
  // to the terminator in the next chunk, or to the end.
  lemma NoValueBehind(raw: bytes, p: nat, decoded: bytes, d: nat, n: nat, k: nat, m: nat, j: nat, field: bytes, r: Range)
    requires Window(raw, p, decoded, d, n) && Seam(raw, p + n, k) && r.start == p
    requires IsBare(raw, field, r) && MatchesAt(decoded, field, false, d)
    requires ColonAt(raw, field, p) < p + n <= ValueAt(raw, field, p)
    requires ColonAt(decoded, field, d) == d + (ColonAt(raw, field, p) - p)
    requires d + n < |decoded| ==> Window(raw, p + n + 4 + k, decoded, d + n, m) && Seam(raw, p + n + 4 + k + m, j)
    ensures Valueless(decoded, field, d)
  {
    hide MatchesAt, ColonAt, IsBare, Agree, Window, Seam, SkipWs, DigitRun;
    SizeTakenForNumber(raw, p + n, k, field, r);
    BareParts(raw, field, r);
    var q, e, c := p + n + 4 + k, d + n, ColonAt(decoded, field, d);
    WindowAgrees(raw, p, decoded, d, n);
    forall i | c + 1 <= i < e ensures IsWs(decoded[i]) { SameByte(raw, p, decoded, d, n, i - d + p); }
    SkipReaches(decoded, c + 1, e);
    if e < |decoded| {
      WindowAgrees(raw, q, decoded, e, m);
      TerminatorBeforeSeam(raw, q + m, j, q);
      SkipWsTransfer(raw, q, decoded, e, m);
      SameByte(raw, q, decoded, e, m, SkipWs(raw, q));
    } else {
      SkipAtEnd(decoded);
    }
  }

  lemma WindowAgrees(raw: bytes, p: nat, decoded: bytes, d: nat, n: nat)
    requires Window(raw, p, decoded, d, n)
    ensures Agree(raw, p, decoded, d, n) && p + n <= |raw| && d + n <= |decoded|
  {
  }

  lemma SkipAtEnd(body: bytes)
    ensures SkipWs(body, |body|) == |body|
  {
  }

  // ----- bodies -----

  /** Every number found raw opens at the image of a decoded name and colon, and lies
      in that byte's chunk if and only if a value follows the colon there -- always,
      when it holds no CR. */
  lemma RawNumberIsOnePiece(chunks: seq<Chunk>, last: bytes, tail: bytes, field: bytes, r: Range) returns (d: nat)
    requires ValidChunks(chunks) && ValidLast(last) && Without(tail, QUOTE) && Without(field, CR)
    requires IsBare(Framed(chunks, last, tail), field, r)
    ensures d < |Joined(chunks)| && Image(chunks, d) == r.start && MatchesAt(Joined(chunks), field, false, d)
    ensures InOneChunk(chunks, d, d + (r.end - r.start)) <==> !Valueless(Joined(chunks), field, d)
    ensures Without(Slice(Framed(chunks, last, tail), r), CR) ==> InOneChunk(chunks, d, d + (r.end - r.start))
  {
    hide ValidChunk, MatchesAt, ColonAt, ValueAt, ChunkEnd, Image, Framed, Joined, IsBare, Window, Seam, Valueless, Without;
    var raw, decoded := Framed(chunks, last, tail), Joined(chunks);
    BareMatches(raw, field, r);
    d := RawMatchIsDecoded(chunks, last, tail, field, false, r.start);
    WindowAt(chunks, last, tail, d);
    var k := SeamAt(chunks, last, tail, d);
    var p, n, e := r.start, ChunkEnd(chunks, d) - d, ChunkEnd(chunks, d);
    if InOneChunk(chunks, d, d + (r.end - r.start)) {
      ImageAgrees(chunks, last, tail, d, r.end - r.start);
      BareTransfer(raw, p, decoded, d, r.end - r.start, field);
      BareHasValue(decoded, field, Range(d, d + (r.end - r.start)));
    }
    if Without(Slice(raw, r), CR) {
      SeamEnds(raw, p + n, k);
      CrEndsRange(raw, r, p + n);
    }
    if ValueAt(raw, field, p) < p + n {
      DigitsBeforeSeam(raw, p + n, k, field, r);
    } else {
      MatchInWindow(raw, p, decoded, d, n, field);
      var m, j := 0, 0;
      if e < |decoded| {
        WindowAt(chunks, last, tail, e);
        j := SeamAt(chunks, last, tail, e);
        m := ChunkEnd(chunks, e) - e;
      }
      NoValueBehind(raw, p, decoded, d, n, k, m, j, field, r);
    }
  }

  lemma BareHasValue(body: bytes, field: bytes, r: Range)
    requires IsBare(body, field, r)
    ensures !Valueless(body, field, r.start)
  {
    hide MatchesAt, ValueAt;
    BareParts(body, field, r);
    assert IsDigit(body[ValueAt(body, field, r.start)]);
  }

  lemma BareMatches(raw: bytes, field: bytes, r: Range)
    requires IsBare(raw, field, r)
    ensures MatchesAt(raw, field, false, r.start) && r.start < r.end <= |raw|
  {
  }

  lemma MatchInWindow(raw: bytes, p: nat, decoded: bytes, d: nat, n: nat, field: bytes)
    requires Window(raw, p, decoded, d, n) && MatchesAt(raw, field, false, p) && ColonAt(raw, field, p) < p + n
    ensures ColonAt(decoded, field, d) == d + (ColonAt(raw, field, p) - p)
  {
    hide MatchesAt, ColonAt, ValueAt, Agree;
    MatchTransfer(raw, p, decoded, d, n, field, false);
  }

  /** Soundness of the bare form, whatever bytes the member holds: a returned number was
      sent in one piece exactly when the decoded body does not leave that name without a
      value -- always, when its first member holds no CR. */
  lemma FoundBareIsOnePiece(recv: bytes, at: nat, chunks: seq<Chunk>, last: bytes, tail: bytes, field: bytes, found: Range)
    returns (d: nat, first: Range)
    requires ChunkedResponse(recv, at, chunks, last, tail) && Without(field, CR)
    requires ComputeIdSnippetRange(recv, field, false) == Some(found)
    ensures BareSnippet(Joined(chunks), field) == Some(first) && Slice(recv, found) == Slice(Joined(chunks), first)
    ensures d < |Joined(chunks)| && found.start == at + Image(chunks, d) && MatchesAt(Joined(chunks), field, false, d)
    ensures SentInOnePiece(recv, at, chunks, d, found) <==> !Valueless(Joined(chunks), field, d)
    ensures Without(Slice(Joined(chunks), first), CR) ==> SentInOnePiece(recv, at, chunks, d, found)
  {
    hide BareSnippet, IsChunked, ExtractResponseBody, FindResponseBodyRange, Framed, Joined, Image, ValidChunk, Without,
      SentInOnePiece, InOneChunk, MatchesAt, Valueless, IsBare;
    ChunkedBody(recv, at, chunks, last, tail);
    var raw, decoded := Framed(chunks, last, tail), Joined(chunks);
    var m := BareSnippet(raw, field).value;
    first := BareSnippet(decoded, field).value;
    assert found == Shift(m, at) && Slice(raw, m) == Slice(decoded, first);
    FoundIsFirstBare(raw, field, m);
    d := RawNumberIsOnePiece(chunks, last, tail, field, m);
    if InOneChunk(chunks, d, d + (m.end - m.start)) { OnePieceIsSent(recv, at, chunks, last, tail, d, m.end - m.start); }
    if SentInOnePiece(recv, at, chunks, d, found) { SentIsOnePiece(recv, at, chunks, d, found); }
    SliceOfTail(recv, at, m);
  }

  // ----- documents -----

  /** A colon is followed by what opens a value. */
  predicate ColonsLead(ts: seq<Token>) {
    forall i | 0 <= i < |ts| && ts[i] == Punct(COLON) ::
      i + 1 < |ts| && ts[i + 1] != Punct(COMMA) && ts[i + 1] != Punct(CLOSE_BRACE)
  }

  lemma LeadJoin(a: seq<Token>, b: seq<Token>)
    requires ColonsLead(a) && ColonsLead(b)
    ensures ColonsLead(a + b)
  {
  }

  lemma LeadName(name: bytes, value: seq<Token>)
    requires ColonsLead(value) && value != [] && value[0] != Punct(COMMA) && value[0] != Punct(CLOSE_BRACE)
    ensures ColonsLead([Quoted(name), Punct(COLON)] + value)
  {
  }

  lemma {:induction false} TokensLead(j: Json)
    ensures ColonsLead(Tokens(j)) && Tokens(j)[0] != Punct(COMMA) && Tokens(j)[0] != Punct(CLOSE_BRACE)
    decreases j
  {
    match j
    case Obj(members) =>
      MembersLead(members);
      LeadJoin([Punct(OPEN_BRACE)], MemberTokens(members));
    case Arr(items) =>
      ItemsLead(items);
      LeadJoin([Punct(OPEN_BRACKET)], ItemTokens(items));
    case _ =>
  }

  lemma {:induction false} MembersLead(m: Members)
    ensures ColonsLead(MemberTokens(m))
    decreases m
  {
    hide ColonsLead, Tokens;
    OneLeads(CLOSE_BRACE);
    OneLeads(COMMA);
    if m.Member? {
      var front := [Quoted(m.name), Punct(COLON)] + Tokens(m.value);
      TokensLead(m.value);
      LeadName(m.name, Tokens(m.value));
      if m.more.NoMembers? {
        LeadJoin(front, [Punct(CLOSE_BRACE)]);
      } else {
        MembersLead(m.more);
        LeadJoin(front, [Punct(COMMA)]);
        LeadJoin(front + [Punct(COMMA)], MemberTokens(m.more));
      }
    }
  }

  lemma {:induction false} ItemsLead(a: Items)
    ensures ColonsLead(ItemTokens(a))
    decreases a
  {
    hide ColonsLead, Tokens;
    OneLeads(CLOSE_BRACKET);
    OneLeads(COMMA);
    if a.Item? {
      TokensLead(a.value);
      if a.more.NoItems? {
        LeadJoin(Tokens(a.value), [Punct(CLOSE_BRACKET)]);
      } else {
        ItemsLead(a.more);
        LeadJoin(Tokens(a.value), [Punct(COMMA)]);
        LeadJoin(Tokens(a.value) + [Punct(COMMA)], ItemTokens(a.more));
      }
    }
  }

  lemma OneLeads(b: byte)
    requires b != COLON
    ensures ColonsLead([Punct(b)])
  {
  }

  /** A printed document leaves no name without a value. */
  lemma NoNameIsValueless(ts: seq<Spaced>, trail: bytes, doc: Json, field: bytes, i: nat)
    requires Prints(ts, trail, doc) && IsName(field)
    ensures !Valueless(Text(ts, trail), field, i)
  {
    hide Text, Prints, MatchesAt, WellFormed, Agree, Start, Separated, Holds, ValueAt;
    if MatchesAt(Text(ts, trail), field, false, i) {
      PrintedIsWellFormed(ts, trail, doc);
      TextHolds(ts, trail);
      var j := MatchIsAligned(Text(ts, trail), 0, ts, trail, field, false, i);
      MatchedValueAt(ts, trail, field, false, j);
      ValueToken(ts, trail, doc, j);
      TokenAt(ts, trail, j + 2);
      OpeningByte(Text(ts, trail), Start(ts, j + 2), ts[j + 2].token);
    }
  }

  lemma ValueToken(ts: seq<Spaced>, trail: bytes, doc: Json, j: nat)
    requires Prints(ts, trail, doc) && WellFormed(ts, trail) && j + 1 < |ts| && ts[j..][1].token == Punct(COLON)
    ensures j + 2 < |ts| && ValidToken(ts[j + 2].token)
    ensures ts[j + 2].token != Punct(COMMA) && ts[j + 2].token != Punct(CLOSE_BRACE)
  {
    hide Tokens;
    TokensLead(doc);
    assert Kinds(ts)[j + 1] == ts[j + 1].token == Punct(COLON);
    assert Kinds(ts)[j + 2] == ts[j + 2].token;
  }

  lemma OpeningByte(body: bytes, o: nat, t: Token)
    requires Agree(body, o, Spell(t), 0, |Spell(t)|) && ValidToken(t) && t != Punct(COMMA) && t != Punct(CLOSE_BRACE)
    ensures o < |body| && body[o] != COMMA && body[o] != CLOSE_BRACE
  {
    assert body[o] == Spell(t)[0];
  }

  // ----- the number -----

  /** `text` stands at `v` in the member, whitespace or the colon before it, whitespace
      and one comma or brace behind it. */
  predicate NumberAt(s: bytes, r: Range, text: bytes, v: nat) {
    && r.start < v && v + |text| < r.end <= |s| && Agree(s, v, text, 0, |text|)
    && (IsWs(s[v - 1]) || s[v - 1] == COLON) && (forall i | v + |text| <= i < r.end - 1 :: IsWs(s[i]))
    && (s[r.end - 1] == COMMA || s[r.end - 1] == CLOSE_BRACE)
  }

  ghost predicate HoldsNumber(s: bytes, r: Range, text: bytes) { exists v: nat :: NumberAt(s, r, text, v) }

  lemma BareHoldsNumber(body: bytes, field: bytes, r: Range, text: bytes)
    requires IsBare(body, field, r)
    requires Agree(body, ValueAt(body, field, r.start), text, 0, |text|)
    requires DigitRun(body, ValueAt(body, field, r.start)) == ValueAt(body, field, r.start) + |text|
    ensures HoldsNumber(body, r, text)
  {
    hide DigitRun, Agree;
    assert NumberAt(body, r, text, ValueAt(body, field, r.start));
  }

  lemma NumberTransfers(a: bytes, r: Range, b: bytes, q: Range, text: bytes)
    requires HoldsNumber(a, r, text) && Fits(r, a) && Fits(q, b) && Slice(a, r) == Slice(b, q)
    ensures HoldsNumber(b, q, text)
  {
    hide Agree;
    var v: nat :| NumberAt(a, r, text, v);
    var n, skip := r.end - r.start, v - r.start;
    assert n == |Slice(b, q)|;
    AgreeIsSliceEquality(b, q.start, a, r.start, n);
    AgreePart(b, q.start, a, r.start, n, skip, |text|);
    OccursTransfer(a, v, b, q.start + skip, text);
    NumberInWindow(a, r, b, q, text, v);
    assert NumberAt(b, q, text, q.start + skip);
  }

  // The bytes around the number, one window seen from the other.
  lemma NumberInWindow(a: bytes, r: Range, b: bytes, q: Range, text: bytes, v: nat)
    requires NumberAt(a, r, text, v) && Fits(q, b) && q.end - q.start == r.end - r.start
    requires Agree(b, q.start, a, r.start, q.end - q.start)
    ensures var w := v - r.start + q.start;
            && (IsWs(b[w - 1]) || b[w - 1] == COLON) && (b[q.end - 1] == COMMA || b[q.end - 1] == CLOSE_BRACE)
            && forall i | w + |text| <= i < q.end - 1 :: IsWs(b[i])
  {
  }

  predicate IsNumber(v: Option<Json>) { v.Some? && v.value.Atom? && CanonicalNat(v.value.text) }

  /** The member holds that number of the document. */
  ghost predicate IsNumberOf(s: bytes, r: Range, v: Option<Json>) { IsNumber(v) && HoldsNumber(s, r, v.value.text) }

  /** The decoded body's number is the document's. */
  lemma PrintedNumber(ts: seq<Spaced>, trail: bytes, doc: Json, field: bytes, r: Range)
    requires Prints(ts, trail, doc) && IsName(field) && BareSnippet(Text(ts, trail), field) == Some(r)
    ensures IsNumberOf(Text(ts, trail), r, Find(doc, field, false))
  {
    hide Text, Prints, BareSnippet, IsBare, Find, ValueAt, DigitRun, Agree, HoldsNumber;
    BareScanFindsMember(ts, trail, doc, field);
    BareHoldsNumber(Text(ts, trail), field, r, Find(doc, field, false).value.text);
  }

  /** A returned account number, of a document in any chunks: it was sent in one piece,
      and its digits are the number the document holds first under that name. */
  lemma ReturnedNumberIsTheDocuments(recv: bytes, at: nat, chunks: seq<Chunk>, last: bytes, tail: bytes,
                                     ts: seq<Spaced>, trail: bytes, doc: Json, field: bytes, found: Range)
    returns (d: nat)
    requires ChunkedResponse(recv, at, chunks, last, tail) && Joined(chunks) == Text(ts, trail) && Prints(ts, trail, doc)
    requires IsName(field) && Without(field, CR) && ComputeIdSnippetRange(recv, field, false) == Some(found)
    ensures SentInOnePiece(recv, at, chunks, d, found)
    ensures IsNumberOf(recv, found, Find(doc, field, false))
  {
    hide ChunkedResponse, Text, Prints, BareSnippet, Find, Joined, IsName, Without, SentInOnePiece, HoldsNumber,
      Valueless, ComputeIdSnippetRange, Slice;
    var first;
    d, first := FoundBareIsOnePiece(recv, at, chunks, last, tail, field, found);
    NoNameIsValueless(ts, trail, doc, field, d);
    PrintedNumber(ts, trail, doc, field, first);
    PieceFits(recv, at, chunks, d, found);
    NumberTransfers(Joined(chunks), first, recv, found, Find(doc, field, false).value.text);
  }

  lemma PieceFits(recv: bytes, at: nat, chunks: seq<Chunk>, d: nat, r: Range)
    requires SentInOnePiece(recv, at, chunks, d, r)
    ensures Fits(r, recv)
  {
  }
}
