/** Message heads, section 5 of RFC 9112, and what the header and body searches
    of `ranges.rs` find in them. */
module Head {
  import opened Wrappers
  import opened Octets
  import opened Chunked
  import opened Response
  import opened Contiguity

  datatype Header = Header(name: bytes, value: bytes)

  const SEPARATOR: bytes := [COLON, SPACE]

  /** The header lines, each opened by the CRLF of the line before, the empty line, and the body. */
  function Lines(headers: seq<Header>, body: bytes): bytes {
    if headers == [] then CRLF + CRLF + body
    else CRLF + headers[0].name + SEPARATOR + headers[0].value + Lines(headers[1..], body)
  }

  function Message(start: bytes, headers: seq<Header>, body: bytes): bytes { start + Lines(headers, body) }

  predicate ValidHeaders(headers: seq<Header>) {
    forall i | 0 <= i < |headers| ::
      Without(headers[i].name, CR) && Without(headers[i].name, COLON) && Without(headers[i].value, CR)
  }

  /** The first header whose name is `name`, case aside. */
  function FirstHeader(headers: seq<Header>, name: bytes): (r: Option<nat>)
    ensures r.Some? ==> r.value < |headers|
  {
    if headers == [] then None
    else if EqIgnoreCase(headers[0].name, name) then Some(0)
    else match FirstHeader(headers[1..], name)
         case None => None
         case Some(i) => Some(i + 1)
  }

  /** The offset of line `i`'s opening CRLF within the lines; past the last, of the empty line's. */
  function LineOffset(headers: seq<Header>, i: nat): nat
    requires i <= |headers|
  {
    if i == 0 then 0 else |headers[0].name| + |headers[0].value| + 4 + LineOffset(headers[1..], i - 1)
  }

  /** `data` from `off` to its end is `text`. */
  ghost predicate Ends(data: bytes, off: nat, text: bytes) {
    off + |text| == |data| && Agree(data, off, text, 0, |text|)
  }

  // The parts of a header line in place.
  lemma LineParts(data: bytes, off: nat, headers: seq<Header>, body: bytes)
    requires Ends(data, off, Lines(headers, body)) && headers != []
    ensures var h := headers[0];
            var n, v := off + 2, off + |h.name| + 4;
            && v + |h.value| + 2 <= |data|
            && data[off] == CR && data[off + 1] == LF && Agree(data, n, h.name, 0, |h.name|)
            && data[v - 2] == COLON && data[v - 1] == SPACE && Agree(data, v, h.value, 0, |h.value|)
            && Ends(data, v + |h.value|, Lines(headers[1..], body))
            && data[v + |h.value|] == CR && data[v + |h.value| + 1] == LF
  {
    hide Agree;
    var h := headers[0];
    var rest := Lines(headers[1..], body);
    assert Lines(headers, body) == CRLF + h.name + SEPARATOR + h.value + rest;
    JoinedParts(data, off, CRLF, h.name, SEPARATOR, h.value, rest) by { hide Lines, Agree; }
    LinesOpen(headers[1..], body);
    FirstTwo(data, off, CRLF);
    FirstTwo(data, off + |h.name| + 2, SEPARATOR);
    FirstTwo(data, off + |h.name| + |h.value| + 4, rest);
  }

  lemma FirstTwo(data: bytes, off: nat, part: bytes)
    requires Agree(data, off, part, 0, |part|) && |part| >= 2
    ensures data[off] == part[0] && data[off + 1] == part[1]
  {
  }

  lemma LinesOpen(headers: seq<Header>, body: bytes)
    ensures |Lines(headers, body)| >= 2 && Lines(headers, body)[0] == CR && Lines(headers, body)[1] == LF
  {
  }

  lemma JoinedParts(data: bytes, off: nat, a: bytes, b: bytes, c: bytes, d: bytes, e: bytes)
    requires Ends(data, off, a + b + c + d + e)
    ensures Agree(data, off, a, 0, |a|) && Agree(data, off + |a|, b, 0, |b|)
    ensures Agree(data, off + |a| + |b|, c, 0, |c|) && Agree(data, off + |a| + |b| + |c|, d, 0, |d|)
    ensures Ends(data, off + |a| + |b| + |c| + |d|, e)
  {
    var all := a + b + c + d + e;
    AgreePart(data, off, all, 0, |all|, 0, |a|);
    AgreePart(data, off, all, 0, |all|, |a|, |b|);
    AgreePart(data, off, all, 0, |all|, |a| + |b|, |c|);
    AgreePart(data, off, all, 0, |all|, |a| + |b| + |c|, |d|);
    AgreePart(data, off, all, 0, |all|, |a| + |b| + |c| + |d|, |e|);
  }

  lemma LastLineParts(data: bytes, off: nat, body: bytes)
    requires Ends(data, off, Lines([], body))
    ensures off + 4 + |body| == |data| && OccursAt(data, HEAD_END, off)
  {
    var all := Lines([], body);
    assert all[0] == CR && all[1] == LF && all[2] == CR && all[3] == LF;
  }

  // ----- names -----

  lemma OccursByByte(data: bytes, needle: bytes, i: nat)
    ensures OccursIgnoringCase(data, needle, i) <==>
            i + |needle| <= |data| && forall k | i <= k < i + |needle| :: Lower(data[k]) == Lower(needle[k - i])
  {
    if i + |needle| <= |data| {
      var w := data[i..i + |needle|];
      if EqIgnoreCase(w, needle) {
        forall k | i <= k < i + |needle| ensures Lower(data[k]) == Lower(needle[k - i]) { assert data[k] == w[k - i]; }
      }
    }
  }

  // The needle opens with CR, and no letter case hides one.
  lemma NeedleOpensWithCr(data: bytes, name: bytes, i: nat)
    requires i >= |data| || data[i] != CR
    ensures !OccursIgnoringCase(data, HeaderNeedle(name), i)
  {
    OccursByByte(data, HeaderNeedle(name), i);
    assert HeaderNeedle(name)[0] == CR;
  }

  /** At a header line the needle matches exactly the names equal but for case. */
  lemma NeedleAtLine(data: bytes, off: nat, headers: seq<Header>, body: bytes, name: bytes)
    requires Ends(data, off, Lines(headers, body)) && headers != [] && ValidHeaders(headers) && Without(name, COLON)
    ensures OccursIgnoringCase(data, HeaderNeedle(name), off) <==> EqIgnoreCase(headers[0].name, name)
  {
    hide Lines, OccursIgnoringCase;
    LineParts(data, off, headers, body);
    OccursByByte(data, HeaderNeedle(name), off);
    var h, needle := headers[0], HeaderNeedle(name);
    assert needle[0] == CR && needle[1] == LF && needle[|name| + 2] == COLON && needle[|name| + 3] == SPACE;
    NameInNeedle(name);
    // The first byte at which the shorter of the two names has ended.
    var n := if |h.name| < |name| then |h.name| else |name|;
    assert data[off + 2 + n] == if n < |h.name| then h.name[n] else COLON;
    assert needle[2 + n] == if n < |name| then name[n] else COLON;
    if OccursIgnoringCase(data, needle, off) {
      assert Lower(data[off + 2 + n]) == Lower(needle[2 + n]);
      forall k | 0 <= k < |name| ensures Lower(h.name[k]) == Lower(name[k]) {
        assert data[off + 2 + k] == h.name[k] && needle[k + 2] == name[k];
      }
    }
  }

  lemma NameInNeedle(name: bytes)
    ensures forall k | 2 <= k < |name| + 2 :: HeaderNeedle(name)[k] == name[k - 2]
  {
  }

  // Inside a line there is no CR to open a needle or an end of head.
  lemma NoCrInLine(data: bytes, off: nat, headers: seq<Header>, body: bytes, i: nat)
    requires Ends(data, off, Lines(headers, body)) && headers != [] && ValidHeaders(headers)
    requires off < i < off + |headers[0].name| + |headers[0].value| + 4
    ensures i < |data| && data[i] != CR
  {
    hide Lines;
    LineParts(data, off, headers, body);
    var h := headers[0];
    var v := off + |h.name| + 4;
    assert Without(h.name, CR) && Without(h.value, CR);
    if off + 2 <= i < v - 2 {
      assert data[i] == h.name[i - off - 2];
    } else if v <= i {
      assert data[i] == h.value[i - v];
    }
  }

  lemma FindSkips(data: bytes, needle: bytes, from: nat, until: nat)
    requires needle != [] && from <= until <= |data|
    requires forall i: nat | from <= i < until :: !OccursIgnoringCase(data, needle, i)
    ensures FindIgnoringCase(data, needle, from) == FindIgnoringCase(data, needle, until)
    decreases until - from
  {
    hide OccursIgnoringCase;
    if from < until { FindSkips(data, needle, from + 1, until); }
  }

  lemma FindHere(data: bytes, needle: bytes, at: nat)
    requires needle != [] && at < |data| && OccursIgnoringCase(data, needle, at)
    ensures FindIgnoringCase(data, needle, at) == Some(at)
  {
  }

  /** The needle search over the lines finds the first header of that name; where
      there is none, it runs on into the empty line and the body. */
  lemma {:induction false} FindInLines(data: bytes, off: nat, headers: seq<Header>, body: bytes, name: bytes)
    requires Ends(data, off, Lines(headers, body)) && ValidHeaders(headers) && Without(name, COLON)
    ensures off + LineOffset(headers, |headers|) <= |data|
    ensures FindIgnoringCase(data, HeaderNeedle(name), off) ==
            match FirstHeader(headers, name)
            case Some(i) => Some(off + LineOffset(headers, i))
            case None => FindIgnoringCase(data, HeaderNeedle(name), off + LineOffset(headers, |headers|))
    decreases |headers|
  {
    hide Lines, OccursIgnoringCase, Agree, EqIgnoreCase, HeaderNeedle, FindIgnoringCase;
    if headers != [] {
      var h := headers[0];
      LineParts(data, off, headers, body);
      NeedleAtLine(data, off, headers, body, name);
      var next := off + |h.name| + |h.value| + 4;
      FindInLines(data, next, headers[1..], body, name);
      if EqIgnoreCase(h.name, name) {
        FindHere(data, HeaderNeedle(name), off);
      } else {
        forall i: nat | off <= i < next ensures !OccursIgnoringCase(data, HeaderNeedle(name), i) {
          if i > off {
            NoCrInLine(data, off, headers, body, i);
            NeedleOpensWithCr(data, name, i);
          }
        }
        FindSkips(data, HeaderNeedle(name), off, next);
      }
    }
  }

  lemma {:induction false} LineAt(data: bytes, off: nat, headers: seq<Header>, body: bytes, i: nat)
    requires Ends(data, off, Lines(headers, body)) && ValidHeaders(headers) && i <= |headers|
    ensures Ends(data, off + LineOffset(headers, i), Lines(headers[i..], body))
    decreases i
  {
    hide Lines, Agree;
    if i == 0 {
      assert headers[0..] == headers;
    } else {
      LineParts(data, off, headers, body);
      LineAt(data, off + |headers[0].name| + |headers[0].value| + 4, headers[1..], body, i - 1);
      assert headers[i..] == headers[1..][i - 1..];
    }
  }

  lemma MessageEnds(start: bytes, headers: seq<Header>, body: bytes)
    ensures Ends(Message(start, headers, body), |start|, Lines(headers, body))
  {
    hide Lines;
  }

  // From a value's first byte, the next CRLF is the one that ends its line.
  lemma ValueEnds(data: bytes, off: nat, headers: seq<Header>, body: bytes)
    requires Ends(data, off, Lines(headers, body)) && headers != [] && ValidHeaders(headers)
    ensures var v := off + |headers[0].name| + 4;
            FindFrom(data, CRLF, v) == Some(v + |headers[0].value|) &&
            Agree(data, v, headers[0].value, 0, |headers[0].value|) && v + |headers[0].value| <= |data|
  {
    hide Lines, FindFrom;
    LineParts(data, off, headers, body);
    var h := headers[0];
    var v := off + |h.name| + 4;
    forall i: nat | v <= i < v + |h.value| ensures !OccursAt(data, CRLF, i) {
      NoCrInLine(data, off, headers, body, i);
      assert CRLF[0] == CR;
    }
    FindFromIs(data, CRLF, v, v + |h.value|);
  }

  /** Header printer and parser: the search returns exactly the value of the first
      header with that name, case aside. Where the head has none, the search is
      not confined to it: it goes on from the empty line into the body. */
  lemma HeaderParsesBack(start: bytes, headers: seq<Header>, body: bytes, name: bytes)
    requires Without(start, CR) && ValidHeaders(headers) && Without(name, COLON)
    ensures match FirstHeader(headers, name)
            case Some(i) =>
              i < |headers| &&
              var r := FindHeaderRange(Message(start, headers, body), name);
              r.Some? && Slice(Message(start, headers, body), r.value) == headers[i].value
            case None =>
              FindIgnoringCase(Message(start, headers, body), HeaderNeedle(name), 0) ==
              FindIgnoringCase(Message(start, headers, body), HeaderNeedle(name),
                               |start| + LineOffset(headers, |headers|))
  {
    hide *;
    MessageEnds(start, headers, body);
    FindInLines(Message(start, headers, body), |start|, headers, body, name);
    SkipStart(start, headers, body, name);
    if FirstHeader(headers, name).Some? {
      ValueOfHeader(Message(start, headers, body), |start|, headers, body, name, FirstHeader(headers, name).value);
    }
  }

  lemma ValueOfHeader(data: bytes, off: nat, headers: seq<Header>, body: bytes, name: bytes, i: nat)
    requires Ends(data, off, Lines(headers, body)) && ValidHeaders(headers)
    requires i < |headers| && FirstHeader(headers, name) == Some(i)
    requires FindIgnoringCase(data, HeaderNeedle(name), 0) == Some(off + LineOffset(headers, i))
    ensures FindHeaderRange(data, name).Some?
    ensures Slice(data, FindHeaderRange(data, name).value) == headers[i].value
  {
    hide Lines, OccursIgnoringCase, FindIgnoringCase, FindFrom, Ends, Agree, LineOffset;
    LineAt(data, off, headers, body, i);
    FoundNameFits(headers, name);
    ValueEnds(data, off + LineOffset(headers, i), headers[i..], body);
    var v, value := off + LineOffset(headers, i) + |headers[i].name| + 4, headers[i].value;
    assert headers[i..][0] == headers[i];
    assert data[v..v + |value|] == value[0..0 + |value|] by { AgreeIsSliceEquality(data, v, value, 0, |value|); }
    assert |HeaderNeedle(name)| == |name| + 4;
  }

  lemma {:induction false} FoundNameFits(headers: seq<Header>, name: bytes)
    ensures match FirstHeader(headers, name)
            case Some(i) => i < |headers| && |headers[i].name| == |name|
            case None => true
  {
    if headers != [] && !EqIgnoreCase(headers[0].name, name) { FoundNameFits(headers[1..], name); }
  }

  lemma SkipStart(start: bytes, headers: seq<Header>, body: bytes, name: bytes)
    requires Without(start, CR)
    ensures FindIgnoringCase(Message(start, headers, body), HeaderNeedle(name), 0) ==
            FindIgnoringCase(Message(start, headers, body), HeaderNeedle(name), |start|)
  {
    hide OccursIgnoringCase, FindIgnoringCase, Lines;
    var data := Message(start, headers, body);
    forall i: nat | i < |start| ensures !OccursIgnoringCase(data, HeaderNeedle(name), i) {
      assert data[i] == start[i];
      NeedleOpensWithCr(data, name, i);
    }
    FindSkips(data, HeaderNeedle(name), 0, |start|);
  }

  // ----- the body -----

  lemma NoHeadEndWithoutCr(data: bytes, i: nat)
    requires i >= |data| || data[i] != CR || i + 2 >= |data| || data[i + 2] != CR
    ensures !OccursAt(data, HEAD_END, i)
  {
    assert HEAD_END[0] == CR && HEAD_END[2] == CR;
  }

  lemma {:induction false} NoHeadEndInLines(data: bytes, off: nat, headers: seq<Header>, body: bytes, i: nat)
    requires Ends(data, off, Lines(headers, body)) && ValidHeaders(headers)
    requires off <= i < off + LineOffset(headers, |headers|)
    ensures !OccursAt(data, HEAD_END, i)
    decreases |headers|
  {
    hide Lines, Agree, OccursAt;
    var h := headers[0];
    LineParts(data, off, headers, body);
    var next := off + |h.name| + |h.value| + 4;
    if i < next {
      NoCrInLine(data, off, headers, body, if i == off then off + 2 else i);
      NoHeadEndWithoutCr(data, i);
    } else {
      NoHeadEndInLines(data, next, headers[1..], body, i);
    }
  }

  /** The body search returns exactly the appended body. */
  lemma BodyParsesBack(start: bytes, headers: seq<Header>, body: bytes)
    requires Without(start, CR) && ValidHeaders(headers)
    ensures var data := Message(start, headers, body);
            |data| >= |body| &&
            FindResponseBodyRange(data) == Some(Range(|data| - |body|, |data|)) &&
            data[|data| - |body|..] == body
  {
    hide Lines, Agree, FindFrom, Ends;
    var data := Message(start, headers, body);
    MessageEnds(start, headers, body);
    LineAt(data, |start|, headers, body, |headers|);
    var end := |start| + LineOffset(headers, |headers|);
    assert headers[|headers|..] == [];
    LastLineParts(data, end, body);
    forall i: nat | i < end ensures !OccursAt(data, HEAD_END, i) {
      if i < |start| {
        assert data[i] == start[i];
        NoHeadEndWithoutCr(data, i);
      } else {
        NoHeadEndInLines(data, |start|, headers, body, i);
      }
    }
    FindFromIs(data, HEAD_END, 0, end);
    BodyIsLast(start, headers, body);
  }

  lemma {:induction false} BodyIsLast(start: bytes, headers: seq<Header>, body: bytes)
    ensures var data := Message(start, headers, body); |data| >= |body| && data[|data| - |body|..] == body
    decreases |headers|
  {
    var data := Message(start, headers, body);
    if headers == [] {
      assert data == (start + CRLF + CRLF) + body;
    } else {
      var h := headers[0];
      var more := start + CRLF + h.name + SEPARATOR + h.value;
      assert data == Message(more, headers[1..], body);
      BodyIsLast(more, headers[1..], body);
    }
  }

  /** A printed chunked response: what the range lemmas of `Contiguity` ask of one. */
  lemma PrintedChunkedResponse(start: bytes, headers: seq<Header>, chunks: seq<Chunk>, last: bytes, tail: bytes)
    requires Without(start, CR) && ValidHeaders(headers)
    requires ValidChunks(chunks) && ValidLast(last) && Without(tail, QUOTE)
    requires match FirstHeader(headers, TRANSFER_ENCODING)
             case Some(i) => i < |headers| && FindFrom(headers[i].value, CHUNKED, 0).Some?
             case None => false
    requires |Message(start, headers, Framed(chunks, last, tail))| < USIZE_LIMIT
    ensures var recv, raw := Message(start, headers, Framed(chunks, last, tail)), Framed(chunks, last, tail);
            |recv| >= |raw| && ChunkedResponse(recv, |recv| - |raw|, chunks, last, tail)
  {
    hide Framed, Message, FindResponseBodyRange, FindHeaderRange, FindFrom, FirstHeader;
    BodyParsesBack(start, headers, Framed(chunks, last, tail));
    assert Without(TRANSFER_ENCODING, COLON);
    HeaderParsesBack(start, headers, Framed(chunks, last, tail), TRANSFER_ENCODING);
  }
}
