/** Which messages are plain: a head whose Transfer-Encoding does not say chunked, or a
    head without one over a JSON document -- into which the header search runs on, and
    finds nothing. */
module PlainBodies {
  import opened Wrappers
  import opened Octets
  import JsonScan
  import opened JsonText
  import opened JsonDocument
  import opened Response
  import opened Head
  import opened IdentityDocument

  const HYPHEN: byte := 45

  predicate IsNameByte(b: byte) { IsLetter(b) || b == HYPHEN }

  predicate IsHeaderName(name: bytes) { name != [] && forall i | 0 <= i < |name| :: IsNameByte(name[i]) }

  /** A CRLF, `n` bytes of a header name, and a colon, at `i`. */
  predicate HeaderShape(body: bytes, i: nat, n: nat) {
    && n > 0 && i + n + 2 < |body| && body[i] == CR && body[i + 1] == LF
    && (forall k | i + 2 <= k < i + 2 + n :: IsNameByte(body[k])) && body[i + 2 + n] == COLON
  }

  lemma NeedleHasShape(body: bytes, name: bytes, i: nat)
    requires OccursIgnoringCase(body, HeaderNeedle(name), i) && IsHeaderName(name)
    ensures HeaderShape(body, i, |name|)
  {
    hide OccursIgnoringCase;
    var needle := HeaderNeedle(name);
    OccursByByte(body, needle, i);
    assert needle[0] == CR && needle[1] == LF && needle[|name| + 2] == COLON;
    NameInNeedle(name);
    assert Lower(body[i]) == Lower(needle[0]) && Lower(body[i + 1]) == Lower(needle[1]);
    assert Lower(body[i + 2 + |name|]) == Lower(needle[|name| + 2]);
    forall k | i + 2 <= k < i + 2 + |name| ensures IsNameByte(body[k]) {
      assert Lower(body[k]) == Lower(needle[k - i]) && needle[k - i] == name[k - i - 2];
    }
  }

  /** No literal is followed by a colon. */
  predicate NoBareColon(ts: seq<Spaced>) {
    forall i | 0 <= i < |ts| - 1 :: ts[i].token.Bare? ==> ts[i + 1].token != Punct(COLON)
  }

  // A token holds no CR, so a shape opens in whitespace only.
  lemma NoCrInToken(body: bytes, o: nat, t: Token)
    requires Agree(body, o, Spell(t), 0, |Spell(t)|) && ValidToken(t) && (t.Quoted? ==> Without(t.content, CR))
    ensures forall x | o <= x < o + |Spell(t)| :: body[x] != CR
  {
    forall x | o <= x < o + |Spell(t)| ensures body[x] != CR {
      assert body[x] == Spell(t)[x - o];
      if t.Quoted? && o < x < o + |t.content| + 1 { assert Spell(t)[x - o] == t.content[x - o - 1]; }
    }
  }

  lemma NoColonInBare(body: bytes, o: nat, t: Token)
    requires Agree(body, o, Spell(t), 0, |Spell(t)|) && ValidToken(t) && t.Bare?
    ensures forall x | o <= x < o + |Spell(t)| :: body[x] != COLON
  {
  }

  // The shape's name opens the token: then the token is a literal.
  lemma NameOpensBare(t: Token)
    requires ValidToken(t) && IsNameByte(Spell(t)[0])
    ensures t.Bare?
  {
  }

  // What the byte behind a literal can be.
  lemma ByteAfterBare(body: bytes, off: nat, ts: seq<Spaced>, trail: bytes)
    requires Holds(body, off, ts, trail) && WellFormed(ts, trail) && NoBareColon(ts)
    requires ts != [] && ts[0].token.Bare?
    ensures var e := off + |ts[0].ws| + |Spell(ts[0].token)|;
            e < |body| ==> !IsNameByte(body[e]) && body[e] != COLON
  {
    hide Text, Agree;
    HoldsNext(body, off, ts, trail);
    WellFormedNext(ts, trail);
    var e, more := off + |ts[0].ws| + |Spell(ts[0].token)|, ts[1..];
    SkipToToken(body, e, more, trail);
    if more != [] {
      assert more[0] == ts[1] && ts[1].token.Punct? && ValidToken(ts[1].token);
      FirstByteTellsKind(ts[1].token);
    }
    if e < |body| && !IsWs(body[e]) { SkipNothing(body, e); }
  }

  lemma SkipNothing(body: bytes, at: nat)
    requires at < |body| && !IsWs(body[at])
    ensures JsonScan.SkipWs(body, at) == at
  {
  }

  /** In a printed document no header line can be found. */
  lemma {:induction false} NoShapeInText(body: bytes, off: nat, ts: seq<Spaced>, trail: bytes, i: nat, n: nat)
    requires Holds(body, off, ts, trail) && WellFormed(ts, trail) && NoBareColon(ts) && StringsWithoutCr(ts)
    requires off <= i
    ensures !HeaderShape(body, i, n)
    decreases |ts|
  {
    hide Text, Agree, NoBareColon, StringsWithoutCr, WellFormed, Holds;
    if HeaderShape(body, i, n) {
      if ts == [] {
        TrailIsWs(body, off, trail, i + 2 + n);
      } else {
        HoldsNext(body, off, ts, trail);
        var o := off + |ts[0].ws|;
        var e := o + |Spell(ts[0].token)|;
        FirstTokenBytes(body, off, ts, trail);
        if i >= e {
          RestKeeps(ts, trail);
          NoShapeInText(body, e, ts[1..], trail, i, n);
        } else if i >= o {
          NoCrInToken(body, o, ts[0].token);
        } else {
          ShapeMeetsToken(body, off, ts, trail, i, n);
        }
      }
    }
  }

  lemma TrailIsWs(body: bytes, off: nat, trail: bytes, x: nat)
    requires Holds(body, off, [], trail) && WellFormed([], trail) && off <= x < |body|
    ensures IsWs(body[x])
  {
    assert body[x] == trail[x - off];
  }

  lemma RestKeeps(ts: seq<Spaced>, trail: bytes)
    requires WellFormed(ts, trail) && NoBareColon(ts) && StringsWithoutCr(ts) && ts != []
    ensures WellFormed(ts[1..], trail) && NoBareColon(ts[1..]) && StringsWithoutCr(ts[1..])
  {
    WellFormedNext(ts, trail);
    forall i | 0 <= i < |ts| - 2 && ts[1..][i].token.Bare? ensures ts[1..][i + 1].token != Punct(COLON) {
      assert ts[i + 1].token.Bare? && ts[1..][i + 1] == ts[i + 1 + 1];
    }
  }

  lemma FirstTokenBytes(body: bytes, off: nat, ts: seq<Spaced>, trail: bytes)
    requires Holds(body, off, ts, trail) && WellFormed(ts, trail) && StringsWithoutCr(ts) && ts != []
    ensures var o := off + |ts[0].ws|;
            && o < |body| && body[o] == Spell(ts[0].token)[0] && !IsWs(body[o])
            && (forall x | off <= x < o :: IsWs(body[x]))
            && ValidToken(ts[0].token) && (ts[0].token.Quoted? ==> Without(ts[0].token.content, CR))
  {
    hide Text;
    HoldsNext(body, off, ts, trail);
    SkipToToken(body, off, ts, trail);
    assert AllWs(ts[0].ws);
  }

  lemma ShapeMeetsToken(body: bytes, off: nat, ts: seq<Spaced>, trail: bytes, i: nat, n: nat)
    requires Holds(body, off, ts, trail) && WellFormed(ts, trail) && NoBareColon(ts) && StringsWithoutCr(ts)
    requires ts != [] && off <= i < off + |ts[0].ws|
    ensures !HeaderShape(body, i, n)
  {
    hide Text, Agree, NoBareColon, StringsWithoutCr, WellFormed, Holds;
    if HeaderShape(body, i, n) {
      FirstTokenBytes(body, off, ts, trail);
      HoldsNext(body, off, ts, trail);
      var o, t := off + |ts[0].ws|, ts[0].token;
      assert IsNameByte(body[i + 2]);
      assert o == i + 2;
      NameOpensBare(t);
      ByteAfterBare(body, off, ts, trail);
      NoColonInBare(body, o, t);
    }
  }

  lemma PrintedHasNoBareColon(ts: seq<Spaced>, trail: bytes, doc: Json)
    requires Prints(ts, trail, doc)
    ensures NoBareColon(ts) && WellFormed(ts, trail) && ts != []
  {
    PrintedIsWellFormed(ts, trail, doc);
    assert |ts| == |Kinds(ts)| == |Tokens(doc)|;
    forall i | 0 <= i < |ts| - 1 && ts[i].token.Bare? ensures ts[i + 1].token != Punct(COLON) {
      assert Kinds(ts)[i] == ts[i].token && Kinds(ts)[i + 1] == ts[i + 1].token;
    }
  }

  // The empty line read as whitespace before the first token.
  function Headed(ts: seq<Spaced>): seq<Spaced>
    requires ts != []
  {
    [Spaced(HEAD_END + ts[0].ws, ts[0].token)] + ts[1..]
  }

  lemma HeadedKeeps(ts: seq<Spaced>, trail: bytes)
    requires ts != [] && WellFormed(ts, trail) && NoBareColon(ts) && StringsWithoutCr(ts)
    ensures WellFormed(Headed(ts), trail) && NoBareColon(Headed(ts)) && StringsWithoutCr(Headed(ts))
    ensures Text(Headed(ts), trail) == Lines([], Text(ts, trail))
  {
    hide Text;
    var h := Headed(ts);
    assert h[1..] == ts[1..];
    forall k | 0 <= k < |h| ensures h[k].token == ts[k].token && (k > 0 ==> h[k] == ts[k]) {}
    HeadedText(ts, trail);
  }

  lemma HeadedText(ts: seq<Spaced>, trail: bytes)
    requires ts != []
    ensures Text(Headed(ts), trail) == Lines([], Text(ts, trail))
  {
    var h := Headed(ts);
    assert h[1..] == ts[1..];
    assert Text(ts, trail) == ts[0].ws + Spell(ts[0].token) + Text(ts[1..], trail);
    assert Text(h, trail) == (HEAD_END + ts[0].ws) + Spell(ts[0].token) + Text(ts[1..], trail);
    assert HEAD_END == CRLF + CRLF;
  }

  /** A header search that has run past a head over a printed document finds nothing. */
  lemma NothingPastTheHead(data: bytes, off: nat, ts: seq<Spaced>, trail: bytes, doc: Json, name: bytes)
    requires Ends(data, off, Lines([], Text(ts, trail))) && Prints(ts, trail, doc) && StringsWithoutCr(ts)
    requires IsHeaderName(name)
    ensures FindIgnoringCase(data, HeaderNeedle(name), off) == None
  {
    hide Text, Lines, Agree, Prints, OccursIgnoringCase, HeaderShape, FindIgnoringCase, StringsWithoutCr, WellFormed, NoBareColon;
    PrintedHasNoBareColon(ts, trail, doc);
    HeadedKeeps(ts, trail);
    assert Holds(data, off, Headed(ts), trail);
    forall i: nat | off <= i ensures !OccursIgnoringCase(data, HeaderNeedle(name), i) {
      NoShapeInText(data, off, Headed(ts), trail, i, |name|);
      if OccursIgnoringCase(data, HeaderNeedle(name), i) { NeedleHasShape(data, name, i); }
    }
    FindSkips(data, HeaderNeedle(name), off, |data|);
    NothingAtTheEnd(data, HeaderNeedle(name));
  }

  lemma NothingAtTheEnd(data: bytes, needle: bytes)
    requires needle != []
    ensures FindIgnoringCase(data, needle, |data|) == None
  {
  }

  lemma TransferEncodingIsName()
    ensures IsHeaderName(TRANSFER_ENCODING) && Without(TRANSFER_ENCODING, COLON)
  {
  }

  /** The head says nothing of chunks. */
  predicate SaysPlain(headers: seq<Header>) {
    match FirstHeader(headers, TRANSFER_ENCODING)
    case Some(i) => FindFrom(headers[i].value, CHUNKED, 0).None?
    case None => true
  }

  /** A printed message over a document is chunked exactly when its head says so. Only where
      the head has no such header does the search see the document at all. */
  lemma PlainIffHeadersSayPlain(start: bytes, headers: seq<Header>, ts: seq<Spaced>, trail: bytes, doc: Json)
    requires Without(start, CR) && ValidHeaders(headers) && Prints(ts, trail, doc)
    requires FirstHeader(headers, TRANSFER_ENCODING).None? ==> StringsWithoutCr(ts)
    ensures IsChunked(Message(start, headers, Text(ts, trail))) <==> !SaysPlain(headers)
  {
    hide Text, Lines, Message, Prints, FindIgnoringCase, FindFrom, StringsWithoutCr, FirstHeader, Ends, LineOffset, ValidHeaders,
      HeaderNeedle, IsHeaderName, Without;
    var body := Text(ts, trail);
    var data := Message(start, headers, body);
    TransferEncodingIsName();
    HeaderParsesBack(start, headers, body, TRANSFER_ENCODING);
    if FirstHeader(headers, TRANSFER_ENCODING).None? {
      MessageEnds(start, headers, body);
      LineAt(data, |start|, headers, body, |headers|);
      assert headers[|headers|..] == [];
      NothingPastTheHead(data, |start| + LineOffset(headers, |headers|), ts, trail, doc, TRANSFER_ENCODING);
    }
  }
}
