/** What the scanners and the searches accept, byte by byte: the members, numbers, names
    and letters of this module are spelled out and name no predicate of the model. */
module Spelling {
  import opened Wrappers
  import opened Octets
  import opened Chunked
  import opened JsonScan
  import opened Response
  import opened Ceremony
  import opened Head

  // The bytes of an ASCII text.
  function Ascii(s: string): (b: bytes)
    requires forall i | 0 <= i < |s| :: s[i] as int < 128
    ensures |b| == |s| && forall i | 0 <= i < |s| :: b[i] == s[i] as int
  {
    seq(|s|, i requires 0 <= i < |s| => s[i] as int as byte)
  }

  // ----- JSON members -----

  /** Horizontal tab, line feed, carriage return and space, in any mix. */
  predicate IsBlank(b: byte) { b == 9 || b == 10 || b == 13 || b == 32 }

  predicate Blank(s: bytes) { forall i | 0 <= i < |s| :: IsBlank(s[i]) }

  /** A quoted name, a run, a colon, a run. */
  function Named(name: bytes, ws1: bytes, ws2: bytes): bytes { [34] + name + [34] + ws1 + [58] + ws2 }

  lemma NamedBytes(pre: bytes, name: bytes, ws1: bytes, ws2: bytes, rest: bytes)
    ensures var body, n := pre + Named(name, ws1, ws2) + rest, |pre|;
            var c := n + |name| + 2 + |ws1|;
            && |body| == c + 1 + |ws2| + |rest| && OccursAt(body, Key(name), n)
            && (forall i | 0 <= i < n :: body[i] == pre[i])
            && (forall i | n + |name| + 2 <= i < c :: body[i] == ws1[i - n - |name| - 2]) && body[c] == 58
            && (forall i | c + 1 <= i < c + 1 + |ws2| :: body[i] == ws2[i - c - 1])
            && (forall i | c + 1 + |ws2| <= i < |body| :: body[i] == rest[i - c - 1 - |ws2|])
  {
    var body, n := pre + Named(name, ws1, ws2) + rest, |pre|;
    assert Key(name) == [34] + name + [34];
    assert body == pre + (Key(name) + (ws1 + ([58] + (ws2 + rest))));
  }

  lemma NameIsFound(pre: bytes, name: bytes, ws1: bytes, ws2: bytes, rest: bytes, quoted: bool)
    requires (forall i | 0 <= i < |pre| :: pre[i] != 34) && Blank(ws1) && Blank(ws2)
    requires rest != [] && !IsBlank(rest[0]) && (quoted ==> rest[0] == 34)
    ensures KeyAndValue(pre + Named(name, ws1, ws2) + rest, name, quoted) == Some((|pre|, |pre| + |Named(name, ws1, ws2)|))
  {
    hide OccursAt, FirstMatch, SkipWs;
    var body, n := pre + Named(name, ws1, ws2) + rest, |pre|;
    var c := n + |name| + 2 + |ws1|;
    NamedBytes(pre, name, ws1, ws2, rest);
    SkipWsIs(body, n + |name| + 2, c);
    assert body[c + 1 + |ws2|] == rest[0];
    SkipWsIs(body, c + 1, c + 1 + |ws2|);
    forall i: nat | i < n ensures !MatchesAt(body, name, quoted, i) { NoKeyWithoutQuote(body, name, i); }
    FirstMatchIs(body, name, quoted, 0, n);
  }

  lemma NoKeyWithoutQuote(body: bytes, name: bytes, i: nat)
    requires i < |body| && body[i] != 34
    ensures !OccursAt(body, Key(name), i)
  {
    assert Key(name)[0] == 34;
  }

  /** The quoted scan returns the whole member and its value, whatever blanks it holds. */
  lemma MemberIsScanned(pre: bytes, name: bytes, ws1: bytes, ws2: bytes, value: bytes, tail: bytes)
    requires (forall i | 0 <= i < |pre| :: pre[i] != 34) && Blank(ws1) && Blank(ws2)
    requires forall i | 0 <= i < |value| :: value[i] != 34
    ensures var v := |pre| + |name| + |ws1| + |ws2| + 4;
            InBody(pre + Named(name, ws1, ws2) + ([34] + value + [34] + tail), name) ==
            Some(JsonMember(Range(|pre|, v + |value| + 1), Range(v, v + |value|)))
  {
    hide FirstMatch, KeyAndValue;
    var rest := [34] + value + [34] + tail;
    var body, v := pre + Named(name, ws1, ws2) + rest, |pre| + |name| + |ws1| + |ws2| + 4;
    assert rest[0] == 34;
    NameIsFound(pre, name, ws1, ws2, rest, true);
    NamedBytes(pre, name, ws1, ws2, rest);
    assert forall i | 0 <= i < |value| :: rest[i + 1] == value[i];
    FindByteIs(body, 34, v, v + |value|);
  }

  /** The bare scan returns the member through its terminator, digits whole. */
  lemma NumberIsScanned(pre: bytes, name: bytes, ws1: bytes, ws2: bytes, digits: bytes, ws3: bytes, close: byte, tail: bytes)
    requires (forall i | 0 <= i < |pre| :: pre[i] != 34) && Blank(ws1) && Blank(ws2) && Blank(ws3)
    requires digits != [] && (forall i | 0 <= i < |digits| :: 48 <= digits[i] <= 57) && (digits[0] == 48 ==> |digits| == 1)
    requires close == 44 || close == 125
    ensures BareSnippet(pre + Named(name, ws1, ws2) + (digits + ws3 + [close] + tail), name) ==
            Some(Range(|pre|, |pre| + |Named(name, ws1, ws2)| + |digits| + |ws3| + 1))
  {
    hide KeyAndValue, BareSnippet, Named, OccursAt;
    var rest := digits + ws3 + [close] + tail;
    var body, v := pre + Named(name, ws1, ws2) + rest, |pre| + |Named(name, ws1, ws2)|;
    NumberBytes(digits, ws3, close, tail);
    NameIsFound(pre, name, ws1, ws2, rest, false);
    forall i | v <= i < v + |rest| ensures body[i] == rest[i - v] {}
    NumberOutcome(body, name, |pre|, v, v + |digits|, v + |digits| + |ws3|);
  }

  lemma NumberBytes(digits: bytes, ws3: bytes, close: byte, tail: bytes)
    ensures var rest, k := digits + ws3 + [close] + tail, |digits|;
            && |rest| > k + |ws3| && (forall i | 0 <= i < k :: rest[i] == digits[i])
            && (forall i | k <= i < k + |ws3| :: rest[i] == ws3[i - k]) && rest[k + |ws3|] == close
  {
  }

  // What the bare scan makes of a value whose digits end at `e` and blanks at `t`.
  lemma NumberOutcome(body: bytes, name: bytes, n: nat, v: nat, e: nat, t: nat)
    requires KeyAndValue(body, name, false) == Some((n, v)) && v <= e <= t < |body|
    requires (forall i | v <= i < e :: 48 <= body[i] <= 57) && !(48 <= body[e] <= 57)
    requires (forall i | e <= i < t :: IsBlank(body[i])) && !IsBlank(body[t])
    ensures BareSnippet(body, name) ==
            if e > v && (body[v] == 48 ==> e == v + 1) && (body[t] == 44 || body[t] == 125) then Some(Range(n, t + 1)) else None
  {
    hide KeyAndValue, SkipWs, DigitRun;
    RunOfDigits(body, v, e);
    SkipWsIs(body, e, t);
  }

  lemma RunOfDigits(body: bytes, from: nat, end: nat)
    requires from <= end < |body| && (forall i | from <= i < end :: 48 <= body[i] <= 57) && !(48 <= body[end] <= 57)
    ensures DigitRun(body, from) == end
    decreases end - from
  {
    if from < end { RunOfDigits(body, from + 1, end); }
  }

  /** Nothing else is a number: no digit at the value, a leading zero, or another byte
      behind digits and blanks is refused. */
  lemma OtherNumbersAreRefused(pre: bytes, name: bytes, ws1: bytes, ws2: bytes, rest: bytes, k: nat, j: nat)
    requires (forall i | 0 <= i < |pre| :: pre[i] != 34) && Blank(ws1) && Blank(ws2)
    requires k <= j < |rest| && (forall i | 0 <= i < k :: 48 <= rest[i] <= 57) && !(48 <= rest[k] <= 57)
    requires Blank(rest[k..j]) && !IsBlank(rest[j]) && !IsBlank(rest[0])
    requires k == 0 || (k > 1 && rest[0] == 48) || (rest[j] != 44 && rest[j] != 125)
    ensures BareSnippet(pre + Named(name, ws1, ws2) + rest, name) == None
  {
    hide KeyAndValue, BareSnippet, Named, OccursAt;
    var body, v := pre + Named(name, ws1, ws2) + rest, |pre| + |Named(name, ws1, ws2)|;
    NameIsFound(pre, name, ws1, ws2, rest, false);
    forall i | v <= i < v + |rest| ensures body[i] == rest[i - v] {}
    forall i | v + k <= i < v + j ensures IsBlank(body[i]) { assert rest[k..j][i - v - k] == rest[i - v]; }
    NumberOutcome(body, name, |pre|, v, v + k, v + j);
  }

  /** And a returned member is spelled so, with a name, two runs and a value of its own. */
  lemma ScannedMemberIsSpelled(body: bytes, name: bytes, m: JsonMember) returns (ws1: bytes, ws2: bytes)
    requires InBody(body, name) == Some(m)
    ensures Blank(ws1) && Blank(ws2) && Fits(m.member, body) && Fits(m.value, body)
    ensures Slice(body, m.member) == Named(name, ws1, ws2) + ([34] + Slice(body, m.value) + [34])
    ensures forall i | m.value.start <= i < m.value.end :: body[i] != 34
  {
    hide FirstMatch, InBody, SkipWs;
    FoundIsFirstMember(body, name, m);
    var s := m.member.start;
    var a := s + |name| + 2;
    var c := ColonAt(body, name, s);
    ws1, ws2 := body[a..c], body[c + 1..m.value.start - 1];
    AgreeIsSliceEquality(body, s, Key(name), 0, |name| + 2);
    assert body[s..a] == Key(name)[0..|name| + 2] == [34] + name + [34];
    Parts(body, s, a, c, m.value.start - 1, m.value.end);
  }

  lemma Parts(body: bytes, s: nat, a: nat, c: nat, q: nat, e: nat)
    requires s <= a <= c < q < e < |body| && body[c] == 58 && body[q] == 34 == body[e]
    ensures body[s..e + 1] == body[s..a] + body[a..c] + [58] + body[c + 1..q] + ([34] + body[q + 1..e] + [34])
  {
    assert body[c..c + 1] == [58] && body[q..q + 1] == [34] && body[e..e + 1] == [34];
    Cut(body, s, a, c);
    Cut(body, s, c, c + 1);
    Cut(body, s, c + 1, q);
    Cut(body, q, q + 1, e);
    Cut(body, q, e, e + 1);
    Cut(body, s, q, e + 1);
  }

  lemma Cut(s: bytes, i: nat, j: nat, k: nat)
    requires i <= j <= k <= |s|
    ensures s[i..k] == s[i..j] + s[j..k]
  {
  }

  // ----- letters and names -----

  /** Case folding is ASCII's: each capital to its letter, every other byte to itself. */
  lemma FoldsAscii()
    ensures forall v | 0 <= v < 26 :: Lower(CAPITALS[v] as int) == SMALLS[v] as int
    ensures forall b: byte | !(65 <= b <= 90) :: Lower(b) == b
  {
  }

  /** One of two texts, letter by letter. */
  predicate EitherCase(name: bytes, lower: string, upper: string)
    requires |lower| == |upper|
  {
    |name| == |lower| && forall i | 0 <= i < |name| :: name[i] == lower[i] as int || name[i] == upper[i] as int
  }

  /** The header the decoder looks for, in any case and in no other spelling. */
  lemma TransferEncodingInAnyCase(name: bytes)
    ensures EqIgnoreCase(name, TRANSFER_ENCODING) <==> EitherCase(name, "transfer-encoding", "TRANSFER-ENCODING")
  {
    var lower, upper := "transfer-encoding", "TRANSFER-ENCODING";
    forall i | 0 <= i < 17 && i < |name|
      ensures Lower(name[i]) == Lower(TRANSFER_ENCODING[i]) <==> name[i] == lower[i] as int || name[i] == upper[i] as int
    {
    }
  }

  /** The value is chunked when it holds that word, in lower case. */
  lemma ChunkedIsSaid(value: bytes)
    ensures FindFrom(value, CHUNKED, 0).Some? <==> exists i: nat :: OccursAt(value, Ascii("chunked"), i)
  {
    assert CHUNKED == Ascii("chunked");
  }

  /** A head whose one header says so, in any case of its name, makes the body chunked. */
  lemma ChunkedHeadIsRead(name: bytes, body: bytes)
    requires EitherCase(name, "transfer-encoding", "TRANSFER-ENCODING")
    ensures IsChunked(Message([], [Header(name, Ascii("chunked"))], body))
  {
    hide FindHeaderRange, FindFrom, Message, EqIgnoreCase;
    var h := Header(name, Ascii("chunked"));
    TransferEncodingInAnyCase(name);
    NameIsClean(name);
    assert FirstHeader([h], TRANSFER_ENCODING) == Some(0);
    assert CHUNKED == Ascii("chunked");
    FindFromIs(CHUNKED, CHUNKED, 0, 0);
    HeaderParsesBack([], [h], body, TRANSFER_ENCODING);
  }

  lemma NameIsClean(name: bytes)
    requires EitherCase(name, "transfer-encoding", "TRANSFER-ENCODING")
    ensures Without(name, CR) && Without(name, COLON) && Without(Ascii("chunked"), CR) && Without(TRANSFER_ENCODING, COLON)
  {
    var lower, upper := "transfer-encoding", "TRANSFER-ENCODING";
    assert forall i | 0 <= i < 17 :: lower[i] != '\r' && lower[i] != ':' && upper[i] != '\r' && upper[i] != ':';
    var c := "chunked";
    assert forall i | 0 <= i < 7 :: c[i] != '\r';
  }

  /** What the body reader says of a response without a head's end, and of bad framing. */
  lemma BodyErrors(recv: bytes)
    ensures ExtractResponseBody(recv) == Err(NoResponseBody) <==> forall i: nat :: !OccursAt(recv, [13, 10, 13, 10], i)
    ensures forall e :: ExtractResponseBody(recv) == Err(BadChunking(e)) <==>
                        FindResponseBodyRange(recv).Some? && IsChunked(recv) &&
                        DecodeChunked(recv[FindResponseBodyRange(recv).value.start..]) == Err(e)
  {
    hide IsChunked, DecodeChunked;
    assert HEAD_END == [13, 10, 13, 10];
  }

  // ----- the credentials' names -----

  /** The names the layouts look for, as a profile writes them. */
  lemma AccessTokenIsSpelled()
    ensures ACCESS_TOKEN == Ascii("access_token")
  {
  }

  lemma BearerPrefixIsSpelled()
    ensures BEARER_PREFIX == Ascii("\r\nauthorization: Bearer ")
  {
  }
}
