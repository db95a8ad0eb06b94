/** The printed identity request: where its bearer is found, and how many authorization
    headers a reader counts in what the record reveals of it. */
module Requests {
  import opened Wrappers
  import opened Octets
  import opened Ranges
  import opened Layouts
  import opened Response
  import opened Head
  import opened Record
  import opened Attest
  import opened Ceremony
  import opened Coverage
  import opened SessionRecords

  // "authorization", "Bearer " and "bearer".
  const AUTHORIZATION: bytes := [97, 117, 116, 104, 111, 114, 105, 122, 97, 116, 105, 111, 110]
  const SCHEME: bytes := [66, 101, 97, 114, 101, 114, 32]
  const BEARER: bytes := [98, 101, 97, 114, 101, 114]

  // ----- the reader's count -----

  predicate IsBlank(b: byte) { b == SPACE || b == TAB }

  /** The bytes in lower case, spaces and tabs dropped. */
  function Squeezed(s: bytes): bytes {
    if s == [] then []
    else if IsBlank(s[0]) then Squeezed(s[1..])
    else [Lower(s[0])] + Squeezed(s[1..])
  }

  /** The windows of `s` that equal the needle, overlapping ones counted. */
  function Occurrences(s: bytes, needle: bytes): nat {
    if s == [] then 0 else (if StartsWith(s, needle) then 1 else 0) + Occurrences(s[1..], needle)
  }

  const HEADER_START: bytes := CRLF + AUTHORIZATION + [COLON] + BEARER

  lemma {:induction false} SqueezedJoin(a: bytes, b: bytes)
    ensures Squeezed(a + b) == Squeezed(a) + Squeezed(b)
  {
    if a == [] {
      assert a + b == b;
    } else {
      assert (a + b)[1..] == a[1..] + b;
      SqueezedJoin(a[1..], b);
    }
  }

  // Squeezing makes no byte that is not a letter.
  lemma {:induction false} SqueezedWithout(s: bytes, b: byte)
    requires Without(s, b) && !IsLetter(b)
    ensures Without(Squeezed(s), b)
  {
    if s != [] { SqueezedWithout(s[1..], b); }
  }

  // An occurrence opens with CR.
  lemma {:induction false} OccurrencesSkip(a: bytes, b: bytes)
    requires Without(a, CR)
    ensures Occurrences(a + b, HEADER_START) == Occurrences(b, HEADER_START)
  {
    if a == [] {
      assert a + b == b;
    } else {
      assert (a + b)[1..] == a[1..] + b;
      assert (a + b)[0] == a[0];
      if StartsWith(a + b, HEADER_START) { OpensWithCr(a + b); }
      OccurrencesSkip(a[1..], b);
    }
  }

  lemma OpensWithCr(s: bytes)
    requires StartsWith(s, HEADER_START)
    ensures s[0] == CR
  {
    assert s[0] == s[..|HEADER_START|][0];
  }

  /** A header the reader counts: that name and that scheme, blanks and case aside. */
  predicate IsBearer(h: Header) { Squeezed(h.name) == AUTHORIZATION && StartsWith(Squeezed(h.value), BEARER) }

  function BearerHeaders(headers: seq<Header>): nat {
    if headers == [] then 0 else (if IsBearer(headers[0]) then 1 else 0) + BearerHeaders(headers[1..])
  }

  // A squeezed line opens with the needle exactly when its header is counted.
  lemma LineOpens(n: bytes, v: bytes, rest: bytes)
    requires Without(n, COLON) && Without(n, CR) && Without(v, CR) && rest != [] && rest[0] == CR
    ensures StartsWith(CRLF + n + [COLON] + v + rest, HEADER_START) <==> n == AUTHORIZATION && StartsWith(v, BEARER)
  {
    var w := CRLF + n + [COLON] + v + rest;
    WindowBytes(n, v, rest);
    NeedleBytes();
    if StartsWith(w, HEADER_START) {
      forall k | 0 <= k < 22 ensures w[k] == HEADER_START[k] { assert w[..22][k] == w[k]; }
      NameIs(n, v, rest, w);
      ValueIs(n, v, rest, w);
    }
    if n == AUTHORIZATION && StartsWith(v, BEARER) {
      forall k | 0 <= k < 6 ensures v[k] == BEARER[k] { assert v[..6][k] == v[k]; }
      assert w[..22] == HEADER_START;
    }
  }

  lemma NeedleBytes()
    ensures |HEADER_START| == 22 && HEADER_START[0] == CR && HEADER_START[1] == LF && HEADER_START[15] == COLON
    ensures forall k | 0 <= k < 13 :: HEADER_START[k + 2] == AUTHORIZATION[k] && IsLetter(AUTHORIZATION[k])
    ensures forall k | 0 <= k < 6 :: HEADER_START[k + 16] == BEARER[k]
    ensures forall k | 0 < k < 22 :: HEADER_START[k] != CR
  {
  }

  lemma WindowBytes(n: bytes, v: bytes, rest: bytes)
    ensures var w := CRLF + n + [COLON] + v + rest;
            && |w| == 3 + |n| + |v| + |rest| && w[0] == CR && w[1] == LF && w[|n| + 2] == COLON
            && (forall k | 0 <= k < |n| :: w[k + 2] == n[k])
            && (forall k | 0 <= k < |v| :: w[k + |n| + 3] == v[k])
            && (rest != [] ==> w[|n| + |v| + 3] == rest[0])
  {
  }

  // Two names closed by a colon in one place are one name.
  lemma EndTogether(n: bytes, a: bytes, w: bytes)
    requires |w| == |a| + 1 && Without(n, COLON) && Without(a, COLON)
    requires (forall k | 0 <= k < |n| && k < |w| :: w[k] == n[k]) && (|n| < |w| ==> w[|n|] == COLON)
    requires (forall k | 0 <= k < |a| :: w[k] == a[k]) && w[|a|] == COLON
    ensures n == a
  {
  }

  lemma NameIs(n: bytes, v: bytes, rest: bytes, w: bytes)
    requires w == CRLF + n + [COLON] + v + rest && Without(n, COLON) && |w| >= 22
    requires forall k | 0 <= k < 22 :: w[k] == HEADER_START[k]
    ensures n == AUTHORIZATION
  {
    hide HEADER_START;
    WindowBytes(n, v, rest);
    NeedleBytes();
    forall k | 0 <= k < 14 ensures w[2..16][k] == HEADER_START[k + 2] {}
    EndTogether(n, AUTHORIZATION, w[2..16]);
  }

  lemma ValueIs(n: bytes, v: bytes, rest: bytes, w: bytes)
    requires w == CRLF + n + [COLON] + v + rest && |n| == 13 && |w| >= 22 && rest != [] && rest[0] == CR
    requires forall k | 0 <= k < 22 :: w[k] == HEADER_START[k]
    ensures StartsWith(v, BEARER)
  {
    hide HEADER_START;
    WindowBytes(n, v, rest);
    NeedleBytes();
    assert w[|v| + 16] == CR;
    forall k | 0 <= k < 6 ensures v[k] == BEARER[k] { assert w[k + 16] == HEADER_START[k + 16]; }
    assert v[..6] == BEARER;
  }

  lemma {:induction false} CountInLines(headers: seq<Header>, body: bytes)
    requires ValidHeaders(headers)
    ensures Occurrences(Squeezed(Lines(headers, body)), HEADER_START) ==
            BearerHeaders(headers) + Occurrences(Squeezed(Lines([], body)), HEADER_START)
    decreases |headers|
  {
    hide Squeezed, Occurrences, StartsWith;
    if headers != [] {
      var h, rest := headers[0], Lines(headers[1..], body);
      CountInLines(headers[1..], body);
      SqueezedLine(h, rest);
      SqueezedWithout(h.name, COLON);
      SqueezedWithout(h.name, CR);
      SqueezedWithout(h.value, CR);
      LinesOpen(headers[1..], body);
      SqueezedOpens(rest);
      LineCount(Squeezed(h.name), Squeezed(h.value), Squeezed(rest));
    }
  }

  lemma SqueezedLine(h: Header, rest: bytes)
    ensures Squeezed(CRLF + h.name + SEPARATOR + h.value + rest) ==
            CRLF + Squeezed(h.name) + [COLON] + Squeezed(h.value) + Squeezed(rest)
  {
    hide Squeezed;
    SqueezedJoin(CRLF + h.name + SEPARATOR + h.value, rest);
    SqueezedJoin(CRLF + h.name + SEPARATOR, h.value);
    SqueezedJoin(CRLF + h.name, SEPARATOR);
    SqueezedJoin(CRLF, h.name);
    SqueezedMarks();
  }

  lemma SqueezedMarks()
    ensures Squeezed(CRLF) == CRLF && Squeezed(SEPARATOR) == [COLON]
  {
    assert CRLF[1..] == [LF] && [LF][1..] == [];
    assert Squeezed([LF]) == [LF] + Squeezed([]);
    assert SEPARATOR[1..] == [SPACE] && [SPACE][1..] == [];
    assert Squeezed([SPACE]) == [];
  }

  lemma SqueezedOpens(s: bytes)
    requires s != [] && s[0] == CR
    ensures Squeezed(s) != [] && Squeezed(s)[0] == CR
  {
  }

  lemma LineCount(n: bytes, v: bytes, rest: bytes)
    requires Without(n, COLON) && Without(n, CR) && Without(v, CR) && rest != [] && rest[0] == CR
    ensures Occurrences(CRLF + n + [COLON] + v + rest, HEADER_START) ==
            (if n == AUTHORIZATION && StartsWith(v, BEARER) then 1 else 0) + Occurrences(rest, HEADER_START)
  {
    hide HEADER_START, StartsWith;
    var w, inner := CRLF + n + [COLON] + v + rest, [LF] + n + [COLON] + v;
    LineOpens(n, v, rest);
    assert w[1..] == inner + rest;
    OccurrencesSkip(inner, rest);
  }

  /** The count over a printed message is the number of such headers, and whatever the
      empty line and the body add. */
  lemma CountInMessage(start: bytes, headers: seq<Header>, body: bytes)
    requires Without(start, CR) && ValidHeaders(headers)
    ensures Occurrences(Squeezed(Message(start, headers, body)), HEADER_START) ==
            BearerHeaders(headers) + Occurrences(Squeezed(Lines([], body)), HEADER_START)
  {
    hide Squeezed, Occurrences, Lines;
    SqueezedJoin(start, Lines(headers, body));
    SqueezedWithout(start, CR);
    OccurrencesSkip(Squeezed(start), Squeezed(Lines(headers, body)));
    CountInLines(headers, body);
  }

  // ----- where the bearer is found -----

  /** A header the layout finds: spelled exactly as the prefix is. */
  predicate CarriesBearer(h: Header) { h.name == AUTHORIZATION && StartsWith(h.value, SCHEME) }

  function FirstBearer(headers: seq<Header>): (r: Option<nat>)
    ensures r.Some? ==> r.value < |headers| && CarriesBearer(headers[r.value])
  {
    if headers == [] then None
    else if CarriesBearer(headers[0]) then Some(0)
    else match FirstBearer(headers[1..])
         case None => None
         case Some(i) => Some(i + 1)
  }

  lemma PrefixBytes()
    ensures |BEARER_PREFIX| == 24 && BEARER_PREFIX[0] == CR && BEARER_PREFIX[1] == LF
    ensures BEARER_PREFIX[15] == COLON && BEARER_PREFIX[16] == SPACE
    ensures forall k | 0 <= k < 13 :: BEARER_PREFIX[k + 2] == AUTHORIZATION[k] && IsLetter(AUTHORIZATION[k])
    ensures forall k | 0 <= k < 7 :: BEARER_PREFIX[k + 17] == SCHEME[k]
    ensures forall k | 0 < k < 24 :: BEARER_PREFIX[k] != CR
  {
  }

  lemma PrefixAtLine(data: bytes, off: nat, headers: seq<Header>, body: bytes)
    requires Ends(data, off, Lines(headers, body)) && headers != [] && ValidHeaders(headers)
    ensures OccursAt(data, BEARER_PREFIX, off) <==> CarriesBearer(headers[0])
  {
    hide Lines, BEARER_PREFIX;
    LineParts(data, off, headers, body);
    PrefixBytes();
    var h := headers[0];
    var v := off + |h.name| + 4;
    if OccursAt(data, BEARER_PREFIX, off) {
      NameFound(data, off, h);
      ValueFound(data, v, h.value);
    }
    if CarriesBearer(h) {
      forall k | 0 <= k < 7 ensures h.value[k] == SCHEME[k] { assert h.value[..7][k] == h.value[k]; }
      forall x | off <= x < off + 24 ensures data[x] == BEARER_PREFIX[x - off] {
        if off + 2 <= x < off + 15 { assert BEARER_PREFIX[(x - off - 2) + 2] == AUTHORIZATION[x - off - 2]; }
        if off + 17 <= x { assert BEARER_PREFIX[(x - off - 17) + 17] == SCHEME[x - off - 17]; }
      }
    }
  }

  lemma NameFound(data: bytes, off: nat, h: Header)
    requires off + 24 <= |data| && off + |h.name| + 2 < |data| && Without(h.name, COLON)
    requires Agree(data, off + 2, h.name, 0, |h.name|) && data[off + 2 + |h.name|] == COLON
    requires |BEARER_PREFIX| == 24 && forall x | off <= x < off + 24 :: data[x] == BEARER_PREFIX[x - off]
    ensures h.name == AUTHORIZATION
  {
    hide BEARER_PREFIX;
    PrefixBytes();
    var w := data[off + 2..off + 16];
    forall k | 0 <= k < 14 ensures w[k] == BEARER_PREFIX[k + 2] {}
    forall k | 0 <= k < |h.name| && k < 14 ensures w[k] == h.name[k] {}
    EndTogether(h.name, AUTHORIZATION, w);
  }

  lemma ValueFound(data: bytes, v: nat, value: bytes)
    requires v >= 17 && v + 7 <= |data| && v + |value| < |data| && data[v + |value|] == CR
    requires Agree(data, v, value, 0, |value|)
    requires |BEARER_PREFIX| == 24 && forall x | v - 17 <= x < v + 7 :: data[x] == BEARER_PREFIX[x - v + 17]
    ensures StartsWith(value, SCHEME)
  {
    hide BEARER_PREFIX;
    PrefixBytes();
    assert data[v + |value|] == CR;
    forall k | 0 <= k < 7 ensures value[k] == SCHEME[k] {
      assert data[v + k] == BEARER_PREFIX[k + 17] == value[k];
    }
    assert value[..7] == SCHEME;
  }

  lemma PrefixOpensWithCr(data: bytes, i: nat)
    requires i >= |data| || data[i] != CR
    ensures !OccursAt(data, BEARER_PREFIX, i)
  {
    assert BEARER_PREFIX[0] == CR;
  }

  /** No bearer line, no prefix in the head; and the first bearer line is where the first one is. */
  lemma {:induction false} PrefixInLines(data: bytes, off: nat, headers: seq<Header>, body: bytes, i: nat)
    requires Ends(data, off, Lines(headers, body)) && ValidHeaders(headers)
    requires off <= i < off + LineOffset(headers, match FirstBearer(headers) { case Some(k) => k case None => |headers| })
    ensures !OccursAt(data, BEARER_PREFIX, i)
    decreases |headers|
  {
    hide Lines, OccursAt, Agree, CarriesBearer;
    var h := headers[0];
    LineParts(data, off, headers, body);
    var next := off + |h.name| + |h.value| + 4;
    if i == off {
      PrefixAtLine(data, off, headers, body);
    } else if i < next {
      NoCrInLine(data, off, headers, body, i);
      PrefixOpensWithCr(data, i);
    } else {
      PrefixInLines(data, next, headers[1..], body, i);
    }
  }

  lemma PrefixInMessage(start: bytes, headers: seq<Header>, body: bytes, i: nat)
    requires Without(start, CR) && ValidHeaders(headers)
    requires i < |start| + LineOffset(headers, match FirstBearer(headers) { case Some(k) => k case None => |headers| })
    ensures !OccursAt(Message(start, headers, body), BEARER_PREFIX, i)
  {
    hide Lines, OccursAt, FirstBearer, LineOffset, Ends, BEARER_PREFIX;
    var data := Message(start, headers, body);
    MessageEnds(start, headers, body);
    if i < |start| {
      assert data[i] == start[i];
      PrefixOpensWithCr(data, i);
    } else {
      PrefixInLines(data, |start|, headers, body, i);
    }
  }

  /** The bearer of a printed request: the rest of the first bearer line behind the scheme. */
  function BearerRange(start: bytes, headers: seq<Header>, k: nat): Range
    requires k < |headers| && CarriesBearer(headers[k])
  {
    var v := |start| + LineOffset(headers, k) + |headers[k].name| + 4;
    Range(v + 7, v + |headers[k].value|)
  }

  lemma BearerIsFound(start: bytes, headers: seq<Header>, body: bytes, k: nat)
    requires Without(start, CR) && ValidHeaders(headers) && FirstBearer(headers) == Some(k)
    ensures var sent, r := Message(start, headers, body), BearerRange(start, headers, k);
            && Fits(r, sent) && IdentityRequest(sent) == Ok(RevealingLayout([Range(0, r.start), Range(r.end, |sent|)], |sent|))
  {
    hide Lines, OccursAt, FindFrom, LineOffset, Ends, Agree, RevealingLayout, BEARER_PREFIX;
    var data := Message(start, headers, body);
    var off := |start| + LineOffset(headers, k);
    MessageEnds(start, headers, body);
    LineAt(data, |start|, headers, body, k);
    assert headers[k..][0] == headers[k];
    PrefixAtLine(data, off, headers[k..], body);
    forall i: nat | i < off ensures !OccursAt(data, BEARER_PREFIX, i) { PrefixInMessage(start, headers, body, i); }
    PrefixBytes();
    FindFromIs(data, BEARER_PREFIX, 0, off);
    LineParts(data, off, headers[k..], body);
    var v := off + |headers[k].name| + 4;
    CrlfBehind(data, off, headers[k..], body, v + 7);
  }

  lemma CrlfBehind(data: bytes, off: nat, headers: seq<Header>, body: bytes, from: nat)
    requires Ends(data, off, Lines(headers, body)) && headers != [] && ValidHeaders(headers)
    requires var v := off + |headers[0].name| + 4; v <= from <= v + |headers[0].value|
    ensures off + |headers[0].name| + 4 + |headers[0].value| + 2 <= |data|
    ensures FindFrom(data, CRLF, from) == Some(off + |headers[0].name| + 4 + |headers[0].value|)
  {
    hide Lines, FindFrom;
    LineParts(data, off, headers, body);
    var end := off + |headers[0].name| + 4 + |headers[0].value|;
    forall i: nat | from <= i < end ensures !OccursAt(data, CRLF, i) {
      NoCrInLine(data, off, headers, body, i);
      assert CRLF[0] == CR;
    }
    FindFromIs(data, CRLF, from, end);
  }

  /** A request without a body has a layout if and only if it has a bearer line. */
  lemma RequestIsBuiltExactly(start: bytes, headers: seq<Header>)
    requires Without(start, CR) && ValidHeaders(headers)
    ensures IdentityRequest(Message(start, headers, [])).Ok? <==> FirstBearer(headers).Some?
  {
    hide Lines, OccursAt, FindFrom, LineOffset, RevealingLayout, FirstBearer, Message, BEARER_PREFIX;
    var data := Message(start, headers, []);
    match FirstBearer(headers) {
      case Some(k) => BearerIsFound(start, headers, [], k);
      case None =>
        forall i: nat ensures !OccursAt(data, BEARER_PREFIX, i) {
          if i < |start| + LineOffset(headers, |headers|) {
            PrefixInMessage(start, headers, [], i);
          } else {
            TooShort(start, headers, i);
          }
        }
    }
  }

  lemma TooShort(start: bytes, headers: seq<Header>, i: nat)
    requires i >= |start| + LineOffset(headers, |headers|)
    ensures !OccursAt(Message(start, headers, []), BEARER_PREFIX, i)
  {
    hide LineOffset, BEARER_PREFIX;
    LinesLength(headers, []);
    PrefixBytes();
  }

  lemma {:induction false} LinesLength(headers: seq<Header>, body: bytes)
    ensures |Lines(headers, body)| == LineOffset(headers, |headers|) + 4 + |body|
  {
    if headers != [] { LinesLength(headers[1..], body); }
  }

  // ----- what is revealed of the request -----

  /** The headers with the bearer itself taken out. */
  function Emptied(headers: seq<Header>, k: nat): seq<Header>
    requires k < |headers|
  {
    headers[k := Header(headers[k].name, SCHEME)]
  }

  lemma {:induction false} Spliced(pre: bytes, headers: seq<Header>, body: bytes, k: nat)
    requires k < |headers| && StartsWith(headers[k].value, SCHEME)
    ensures var data, v := pre + Lines(headers, body), |pre| + LineOffset(headers, k) + |headers[k].name| + 4;
            && v + 7 <= v + |headers[k].value| <= |data|
            && data[..v + 7] + data[v + |headers[k].value|..] == pre + Lines(Emptied(headers, k), body)
    decreases k
  {
    hide Lines, StartsWith;
    if k == 0 {
      SplicedFirst(pre, headers, body);
    } else {
      var h, emptied := headers[0], Emptied(headers, k);
      LinesCons(pre, headers, body);
      LinesCons(pre, emptied, body);
      assert emptied[1..] == Emptied(headers[1..], k - 1) && emptied[0] == h;
      assert headers[1..][k - 1] == headers[k];
      assert |pre + CRLF + h.name + SEPARATOR + h.value| == |pre| + |h.name| + |h.value| + 4;
      Spliced(pre + CRLF + h.name + SEPARATOR + h.value, headers[1..], body, k - 1);
    }
  }

  lemma SplicedFirst(pre: bytes, headers: seq<Header>, body: bytes)
    requires headers != [] && StartsWith(headers[0].value, SCHEME)
    ensures var data, v := pre + Lines(headers, body), |pre| + |headers[0].name| + 4;
            && v + 7 <= v + |headers[0].value| <= |data|
            && data[..v + 7] + data[v + |headers[0].value|..] == pre + Lines(Emptied(headers, 0), body)
  {
    hide Lines, StartsWith;
    var h, rest, emptied := headers[0], Lines(headers[1..], body), Emptied(headers, 0);
    var front := pre + CRLF + h.name + SEPARATOR;
    LinesCons(pre, headers, body);
    LinesCons(pre, emptied, body);
    assert emptied[1..] == headers[1..] && emptied[0] == Header(h.name, SCHEME);
    assert |front| == |pre| + |h.name| + 4;
    SchemeFits(h.value);
    CutOut(front, h.value, rest);
  }

  lemma SchemeFits(value: bytes)
    requires StartsWith(value, SCHEME)
    ensures |value| >= 7
  {
  }

  lemma LinesCons(pre: bytes, headers: seq<Header>, body: bytes)
    requires headers != []
    ensures pre + Lines(headers, body) ==
            pre + CRLF + headers[0].name + SEPARATOR + headers[0].value + Lines(headers[1..], body)
  {
    Associate(pre, CRLF, headers[0].name, SEPARATOR, headers[0].value, Lines(headers[1..], body));
  }

  lemma Associate(p: bytes, a: bytes, b: bytes, c: bytes, d: bytes, e: bytes)
    ensures p + (a + b + c + d + e) == p + a + b + c + d + e
  {
    assert p + (a + b + c + d) == p + a + b + c + d;
  }

  lemma CutOut(front: bytes, value: bytes, rest: bytes)
    requires StartsWith(value, SCHEME)
    ensures var data := front + value + rest;
            data[..|front| + 7] + data[|front| + |value|..] == front + SCHEME + rest
  {
    var data := front + value + rest;
    assert data[..|front| + 7] == front + value[..7];
    assert data[|front| + |value|..] == rest;
  }

  lemma {:induction false} EmptiedKeeps(headers: seq<Header>, k: nat)
    requires k < |headers| && CarriesBearer(headers[k]) && ValidHeaders(headers)
    ensures ValidHeaders(Emptied(headers, k)) && BearerHeaders(Emptied(headers, k)) == BearerHeaders(headers)
    decreases k
  {
    hide IsBearer;
    var emptied := Emptied(headers, k);
    assert Without(SCHEME, CR);
    if k == 0 {
      assert emptied[1..] == headers[1..];
      CarriedIsBearer(headers[0]);
      CarriedIsBearer(emptied[0]);
    } else {
      assert emptied[1..] == Emptied(headers[1..], k - 1);
      EmptiedKeeps(headers[1..], k - 1);
    }
  }

  // What the layout finds, the reader counts.
  lemma CarriedIsBearer(h: Header)
    requires CarriesBearer(h)
    ensures IsBearer(h)
  {
    SqueezedName();
    SqueezedJoin(SCHEME, h.value[7..]);
    assert h.value == SCHEME + h.value[7..];
    SqueezedScheme();
    assert (BEARER + Squeezed(h.value[7..]))[..6] == BEARER;
  }

  lemma {:induction false} SqueezedLetters(s: bytes)
    requires forall i | 0 <= i < |s| :: 97 <= s[i] <= 122
    ensures Squeezed(s) == s
  {
    if s != [] { SqueezedLetters(s[1..]); }
  }

  lemma SqueezedName()
    ensures Squeezed(AUTHORIZATION) == AUTHORIZATION
  {
    SqueezedLetters(AUTHORIZATION);
  }

  lemma SqueezedScheme()
    ensures Squeezed(SCHEME) == BEARER
  {
    SqueezedLetters(BEARER[1..]);
    SqueezedJoin([SCHEME[0]] + BEARER[1..], [SPACE]);
    assert SCHEME == [SCHEME[0]] + BEARER[1..] + [SPACE];
    assert [SPACE][1..] == [];
    assert ([SCHEME[0]] + BEARER[1..])[1..] == BEARER[1..];
  }

  function StartOfRevealed(r: RevealedRange): int { r.start }

  function Concatenated(rs: seq<RevealedRange>): bytes {
    if rs == [] then [] else rs[0].data + Concatenated(rs[1..])
  }

  /** The block's revealed bytes, joined in offset order. */
  function JoinedBytes(b: DirectionBlock): bytes { Concatenated(SortBy(b.revealed, StartOfRevealed)) }

  lemma JoinedTwo(b: DirectionBlock, sent: bytes, x: Range, y: Range)
    requires CarriesTranscript(b, sent) && Map(b.revealed, RevealedSpan) == Normalized([x, y])
    requires x.start < x.end <= y.start < y.end <= |sent|
    ensures JoinedBytes(b) == sent[x.start..x.end] + sent[y.start..y.end]
  {
    hide Normalized, Map;
    if x.end < y.start {
      TwoApartNormalize(x, y);
      TwoRevealedRanges(b, x, y);
    } else {
      TwoTouchNormalize(x, y);
      OneRevealedRange(b, Range(x.start, y.end));
      assert sent[x.start..y.end] == sent[x.start..x.end] + sent[y.start..y.end];
    }
  }

  lemma TwoTouchNormalize(a: Range, b: Range)
    requires a.start < a.end == b.start < b.end
    ensures Normalized([a, b]) == [Range(a.start, b.end)]
  {
    assert [a, b][1..] == [b] && [b][1..] == [];
    assert SortBy([], StartOf) == [];
    assert SortBy([b], StartOf) == [b];
    assert SortBy([a, b], StartOf) == [a, b];
    assert Inhabited([b]) == [b] && Inhabited([a, b]) == [a, b];
    assert Merge(Range(a.start, b.end), []) == [Range(a.start, b.end)];
  }

  lemma OneRevealedRange(b: DirectionBlock, x: Range)
    requires Map(b.revealed, RevealedSpan) == [x]
    ensures |b.revealed| == 1 && RevealedSpan(b.revealed[0]) == x && JoinedBytes(b) == b.revealed[0].data
  {
    var r := b.revealed[0];
    assert b.revealed == [r] && [r][1..] == [];
    assert SortBy([], StartOfRevealed) == [];
    assert SortBy([r], StartOfRevealed) == [r];
    assert Concatenated([r]) == r.data + Concatenated([]);
  }

  lemma TwoRevealedRanges(b: DirectionBlock, x: Range, y: Range)
    requires Map(b.revealed, RevealedSpan) == [x, y] && x.start < y.start
    ensures |b.revealed| == 2 && RevealedSpan(b.revealed[0]) == x && RevealedSpan(b.revealed[1]) == y
    ensures JoinedBytes(b) == b.revealed[0].data + b.revealed[1].data
  {
    var r, q := b.revealed[0], b.revealed[1];
    assert Map(b.revealed, RevealedSpan)[0] == x && Map(b.revealed, RevealedSpan)[1] == y;
    assert b.revealed == [r, q] && [r, q][1..] == [q] && [q][1..] == [];
    assert SortBy([], StartOfRevealed) == [];
    assert SortBy([q], StartOfRevealed) == [q];
    assert SortBy([r, q], StartOfRevealed) == [r, q];
    assert Concatenated([q]) == q.data + Concatenated([]);
  }

  /** What the record reveals of a printed request is the request with its bearer taken out. */
  lemma RevealedRequest(start: bytes, headers: seq<Header>, body: bytes, k: nat, l: Layout, b: DirectionBlock)
    requires Without(start, CR) && ValidHeaders(headers) && FirstBearer(headers) == Some(k)
    requires IdentityRequest(Message(start, headers, body)) == Ok(l) && CarriesTranscript(b, Message(start, headers, body))
    requires Map(b.revealed, RevealedSpan) == Normalized(l.revealed)
    ensures JoinedBytes(b) == Message(start, Emptied(headers, k), body)
  {
    hide Lines, Normalized, Map, CarriesTranscript, IdentityRequest, LineOffset, JoinedBytes, FirstBearer, ValidHeaders;
    var sent, r := Message(start, headers, body), BearerRange(start, headers, k);
    BearerIsFound(start, headers, body, k);
    Spliced(start, headers, body, k);
    BearerEnds(start, headers, body, k);
    TwoRevealed(Range(0, r.start), Range(r.end, |sent|), |sent|);
    JoinedTwo(b, sent, Range(0, r.start), Range(r.end, |sent|));
    assert sent[0..r.start] == sent[..r.start] && sent[r.end..|sent|] == sent[r.end..];
  }

  lemma BearerEnds(start: bytes, headers: seq<Header>, body: bytes, k: nat)
    requires Without(start, CR) && ValidHeaders(headers) && FirstBearer(headers) == Some(k)
    ensures var r := BearerRange(start, headers, k); 0 < r.start <= r.end < |Message(start, headers, body)|
  {
    hide Lines, LineOffset, FirstBearer;
    var data := Message(start, headers, body);
    MessageEnds(start, headers, body);
    LineAt(data, |start|, headers, body, k);
    LineParts(data, |start| + LineOffset(headers, k), headers[k..], body);
    assert headers[k..][0] == headers[k];
  }

  /** The reader's count over the record of a printed request: the headers it counts, the
      bearer line among them, and whatever the empty line and the body add. It is one
      exactly when that line is the only such header and nothing behind the head spells
      another. */
  lemma AuthorizationHeadersCounted(keccak: bytes -> bytes32, start: bytes, headers: seq<Header>, body: bytes, k: nat,
                                    sl: Layout, recv: bytes, rl: Layout, made: seq<Made>, s: ObservedSession, d: AttestedData)
    requires Without(start, CR) && ValidHeaders(headers) && FirstBearer(headers) == Some(k)
    requires IdentityRequest(Message(start, headers, body)) == Ok(sl)
    requires HonestSession(Message(start, headers, body), sl, recv, rl, made, s)
    requires ValidSession(s) && FromObserved(keccak, s) == Ok(d)
    ensures var behind := Occurrences(Squeezed(Lines([], body)), HEADER_START);
            var counted := Occurrences(Squeezed(JoinedBytes(d.sent)), HEADER_START);
            && counted == BearerHeaders(headers) + behind && BearerHeaders(headers) >= 1
            && (counted == 1 <==> BearerHeaders(headers) == 1 && behind == 0)
            && (body == [] ==> behind == 0)
  {
    hide *;
    var sent := Message(start, headers, body);
    HonestRecord(keccak, sent, sl, recv, rl, made, s, d);
    CoveredCarries(d, sent, recv);
    RevealedRequest(start, headers, body, k, sl, d.sent);
    FirstCarries(headers, k);
    EmptiedKeeps(headers, k);
    CountInMessage(start, Emptied(headers, k), body);
    BearerIsCounted(headers, k);
    NothingBehindTheHead();
  }

  lemma CoveredCarries(d: AttestedData, sent: bytes, recv: bytes)
    requires Covered(d, sent, recv)
    ensures CarriesTranscript(d.sent, sent)
  {
  }

  lemma FirstCarries(headers: seq<Header>, k: nat)
    requires FirstBearer(headers) == Some(k)
    ensures k < |headers| && CarriesBearer(headers[k])
  {
  }

  lemma {:induction false} BearerIsCounted(headers: seq<Header>, k: nat)
    requires k < |headers| && CarriesBearer(headers[k])
    ensures BearerHeaders(headers) >= 1
    decreases k
  {
    hide IsBearer, CarriesBearer;
    if k == 0 { CarriedIsBearer(headers[0]); } else { BearerIsCounted(headers[1..], k - 1); }
  }

  /** Without a body there is nothing behind the head to count. */
  lemma NothingBehindTheHead()
    ensures Occurrences(Squeezed(Lines([], [])), HEADER_START) == 0
  {
    var s := Squeezed(Lines([], []));
    SqueezedShorter(Lines([], []));
    TooShortToOccur(s);
  }

  lemma {:induction false} SqueezedShorter(s: bytes)
    ensures |Squeezed(s)| <= |s|
  {
    if s != [] { SqueezedShorter(s[1..]); }
  }

  lemma {:induction false} TooShortToOccur(s: bytes)
    requires |s| < 22
    ensures Occurrences(s, HEADER_START) == 0
  {
    if s != [] {
      NeedleBytes();
      TooShortToOccur(s[1..]);
    }
  }
}
