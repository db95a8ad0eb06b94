/** JSON documents, printed with any whitespace between their tokens: the byte
    scanners agree with a search of the document itself, in document order. */
module JsonDocument {
  import opened Wrappers
  import opened Octets
  import opened JsonScan
  import opened JsonText

  datatype Json =
    | Str(content: bytes)
    | Atom(text: bytes)
    | Obj(members: Members)
    | Arr(items: Items)

  datatype Members = NoMembers | Member(name: bytes, value: Json, more: Members)

  datatype Items = NoItems | Item(value: Json, more: Items)

  // ----- the printer: a document's tokens -----

  function Tokens(j: Json): (ts: seq<Token>)
    ensures ts != [] && ts[0] != Punct(COLON) && (|ts| > 1 ==> ts[1] != Punct(COLON))
  {
    match j
    case Str(content) => [Quoted(content)]
    case Atom(text) => [Bare(text)]
    case Obj(members) => [Punct(OPEN_BRACE)] + MemberTokens(members)
    case Arr(items) => [Punct(OPEN_BRACKET)] + ItemTokens(items)
  }

  function MemberTokens(m: Members): (ts: seq<Token>)
    ensures ts != [] && ts[0] != Punct(COLON)
  {
    match m
    case NoMembers => [Punct(CLOSE_BRACE)]
    case Member(name, value, NoMembers) => [Quoted(name), Punct(COLON)] + Tokens(value) + [Punct(CLOSE_BRACE)]
    case Member(name, value, more) => [Quoted(name), Punct(COLON)] + Tokens(value) + [Punct(COMMA)] + MemberTokens(more)
  }

  function ItemTokens(a: Items): (ts: seq<Token>)
    ensures ts != [] && ts[0] != Punct(COLON)
  {
    match a
    case NoItems => [Punct(CLOSE_BRACKET)]
    case Item(value, NoItems) => Tokens(value) + [Punct(CLOSE_BRACKET)]
    case Item(value, more) => Tokens(value) + [Punct(COMMA)] + ItemTokens(more)
  }

  // ----- the search: the first member with a name, in document order -----

  function Find(j: Json, field: bytes, quoted: bool): Option<Json> {
    match j
    case Obj(members) => FindInMembers(members, field, quoted)
    case Arr(items) => FindInItems(items, field, quoted)
    case _ => None
  }

  function OrElse<T>(a: Option<T>, b: Option<T>): Option<T> { if a.Some? then a else b }

  function FindInMembers(m: Members, field: bytes, quoted: bool): Option<Json> {
    match m
    case NoMembers => None
    case Member(name, value, more) =>
      if name == field && (quoted ==> value.Str?) then Some(value)
      else OrElse(Find(value, field, quoted), FindInMembers(more, field, quoted))
  }

  function FindInItems(a: Items, field: bytes, quoted: bool): Option<Json> {
    match a
    case NoItems => None
    case Item(value, more) => OrElse(Find(value, field, quoted), FindInItems(more, field, quoted))
  }

  // ----- the same search over bare tokens -----

  predicate Opens(ts: seq<Token>, field: bytes, quoted: bool) {
    && |ts| >= 2 && ts[0] == Quoted(field) && ts[1] == Punct(COLON)
    && (quoted ==> |ts| >= 3 && ts[2].Quoted?)
  }

  /** The tokens from the value of the first such member on. */
  function ValueTokens(ts: seq<Token>, field: bytes, quoted: bool): Option<seq<Token>> {
    if ts == [] then None
    else if Opens(ts, field, quoted) then Some(ts[2..])
    else ValueTokens(ts[1..], field, quoted)
  }

  /** `r` is what a search returns that finds `v` first, and otherwise goes on to `rest`. */
  ghost predicate Finds(r: Option<seq<Token>>, v: Option<Json>, rest: Option<seq<Token>>) {
    match v
    case None => r == rest
    case Some(j) =>
      r.Some? && |Tokens(j)| < |r.value| && r.value[..|Tokens(j)|] == Tokens(j) &&
      (r.value[|Tokens(j)|] == Punct(COMMA) || r.value[|Tokens(j)|] == Punct(CLOSE_BRACE))
  }

  lemma SkipOne(t: Token, rest: seq<Token>, field: bytes, quoted: bool)
    requires !Opens([t] + rest, field, quoted)
    ensures ValueTokens([t] + rest, field, quoted) == ValueTokens(rest, field, quoted)
  {
    assert ([t] + rest)[1..] == rest;
  }

  /** Searching a document's tokens is searching the document. */
  lemma {:induction false} FindInTokens(j: Json, rest: seq<Token>, field: bytes, quoted: bool)
    requires rest != [] ==> rest[0] != Punct(COLON)
    ensures Finds(ValueTokens(Tokens(j) + rest, field, quoted), Find(j, field, quoted), ValueTokens(rest, field, quoted))
    decreases j
  {
    hide Finds, ValueTokens, MemberTokens, ItemTokens, FindInMembers, FindInItems;
    match j
    case Str(content) => SkipOne(Quoted(content), rest, field, quoted); FindsNone(ValueTokens(rest, field, quoted));
    case Atom(text) => SkipOne(Bare(text), rest, field, quoted); FindsNone(ValueTokens(rest, field, quoted));
    case Obj(members) =>
      assert Tokens(j) + rest == [Punct(OPEN_BRACE)] + (MemberTokens(members) + rest);
      SkipOne(Punct(OPEN_BRACE), MemberTokens(members) + rest, field, quoted);
      FindInMemberTokens(members, rest, field, quoted);
    case Arr(items) =>
      assert Tokens(j) + rest == [Punct(OPEN_BRACKET)] + (ItemTokens(items) + rest);
      SkipOne(Punct(OPEN_BRACKET), ItemTokens(items) + rest, field, quoted);
      FindInItemTokens(items, rest, field, quoted);
  }

  lemma FindsNone(rest: Option<seq<Token>>)
    ensures Finds(rest, None, rest)
  {
  }

  // Two searches in a row are the search of the alternative.
  lemma FindsThen(r: Option<seq<Token>>, a: Option<Json>, mid: Option<seq<Token>>, b: Option<Json>,
                  rest: Option<seq<Token>>)
    requires Finds(r, a, mid) && Finds(mid, b, rest)
    ensures Finds(r, OrElse(a, b), rest)
  {
  }

  lemma {:induction false} FindInMemberTokens(m: Members, rest: seq<Token>, field: bytes, quoted: bool)
    ensures Finds(ValueTokens(MemberTokens(m) + rest, field, quoted), FindInMembers(m, field, quoted),
                  ValueTokens(rest, field, quoted))
    decreases m
  {
    hide Finds, ValueTokens, Tokens;
    match m
    case NoMembers => SkipOne(Punct(CLOSE_BRACE), rest, field, quoted); FindsNone(ValueTokens(rest, field, quoted));
    case Member(name, value, more) =>
      var sep: Token := if more.NoMembers? then Punct(CLOSE_BRACE) else Punct(COMMA);
      var tail := if more.NoMembers? then rest else MemberTokens(more) + rest;
      var all := MemberTokens(m) + rest;
      assert all == [Quoted(name)] + ([Punct(COLON)] + (Tokens(value) + ([sep] + tail)));
      if name == field && (quoted ==> value.Str?) {
        MemberOpens(name, value, sep, tail, quoted, ValueTokens(rest, field, quoted));
      } else {
        MemberDoesNotOpen(name, value, [sep] + tail, field, quoted);
        SkipOne(Quoted(name), [Punct(COLON)] + (Tokens(value) + ([sep] + tail)), field, quoted);
        SkipOne(Punct(COLON), Tokens(value) + ([sep] + tail), field, quoted);
        FindInTokens(value, [sep] + tail, field, quoted);
        SkipOne(sep, tail, field, quoted);
        if more.NoMembers? {
          FindsNone(ValueTokens(rest, field, quoted));
        } else {
          FindInMemberTokens(more, rest, field, quoted);
        }
        FindsThen(ValueTokens(all, field, quoted), Find(value, field, quoted), ValueTokens(tail, field, quoted),
                  FindInMembers(more, field, quoted), ValueTokens(rest, field, quoted));
      }
  }

  lemma MemberOpens(name: bytes, value: Json, sep: Token, tail: seq<Token>, quoted: bool, other: Option<seq<Token>>)
    requires quoted ==> value.Str?
    requires sep == Punct(COMMA) || sep == Punct(CLOSE_BRACE)
    ensures Finds(ValueTokens([Quoted(name)] + ([Punct(COLON)] + (Tokens(value) + ([sep] + tail))), name, quoted),
                  Some(value), other)
  {
    var all := [Quoted(name)] + ([Punct(COLON)] + (Tokens(value) + ([sep] + tail)));
    assert all[2..] == Tokens(value) + ([sep] + tail);
  }

  lemma MemberDoesNotOpen(name: bytes, value: Json, tail: seq<Token>, field: bytes, quoted: bool)
    requires !(name == field && (quoted ==> value.Str?))
    ensures !Opens([Quoted(name)] + ([Punct(COLON)] + (Tokens(value) + tail)), field, quoted)
  {
    var all := [Quoted(name)] + ([Punct(COLON)] + (Tokens(value) + tail));
    assert all[2] == Tokens(value)[0];
  }

  lemma {:induction false} FindInItemTokens(a: Items, rest: seq<Token>, field: bytes, quoted: bool)
    ensures Finds(ValueTokens(ItemTokens(a) + rest, field, quoted), FindInItems(a, field, quoted),
                  ValueTokens(rest, field, quoted))
    decreases a
  {
    hide Finds, ValueTokens, Tokens;
    match a
    case NoItems => SkipOne(Punct(CLOSE_BRACKET), rest, field, quoted); FindsNone(ValueTokens(rest, field, quoted));
    case Item(value, more) =>
      var sep: Token := if more.NoItems? then Punct(CLOSE_BRACKET) else Punct(COMMA);
      var tail := if more.NoItems? then rest else ItemTokens(more) + rest;
      var all := ItemTokens(a) + rest;
      assert all == Tokens(value) + ([sep] + tail);
      FindInTokens(value, [sep] + tail, field, quoted);
      SkipOne(sep, tail, field, quoted);
      if more.NoItems? {
        FindsNone(ValueTokens(rest, field, quoted));
      } else {
        FindInItemTokens(more, rest, field, quoted);
      }
      FindsThen(ValueTokens(all, field, quoted), Find(value, field, quoted), ValueTokens(tail, field, quoted),
                FindInItems(more, field, quoted), ValueTokens(rest, field, quoted));
  }

  // ----- a document's tokens are well-formed -----

  predicate ValidJson(j: Json) {
    match j
    case Str(content) => ValidToken(Quoted(content))
    case Atom(text) => ValidToken(Bare(text))
    case Obj(members) => ValidMembers(members)
    case Arr(items) => ValidItems(items)
  }

  predicate ValidMembers(m: Members) {
    m.Member? ==> ValidToken(Quoted(m.name)) && ValidJson(m.value) && ValidMembers(m.more)
  }

  predicate ValidItems(a: Items) { a.Item? ==> ValidJson(a.value) && ValidItems(a.more) }

  /** Valid tokens, structure after every scalar, and a colon after no string value and
      no other scalar. */
  predicate Separated(ts: seq<Token>) {
    && (forall i | 0 <= i < |ts| :: ValidToken(ts[i]))
    && (forall i | 0 <= i < |ts| - 1 :: !ts[i].Punct? ==> ts[i + 1].Punct?)
    && (forall i | 0 <= i < |ts| - 1 :: ts[i].Bare? ==> ts[i + 1] != Punct(COLON))
    && (forall i | 0 <= i < |ts| - 2 :: ts[i] == Punct(COLON) && ts[i + 1].Quoted? ==> ts[i + 2] != Punct(COLON))
  }

  lemma SeparatedJoin(a: seq<Token>, b: seq<Token>)
    requires Separated(a) && Separated(b)
    requires a != [] && b != [] ==> a[|a| - 1].Punct? || b[0].Punct?
    requires b != [] && b[0] == Punct(COLON) ==> a == [] || (|a| == 1 && !a[0].Bare?)
    requires a != [] && a[|a| - 1] == Punct(COLON) ==> |b| < 2 || b[1] != Punct(COLON)
    ensures Separated(a + b)
  {
  }

  lemma {:induction false} TokensSeparated(j: Json)
    requires ValidJson(j)
    ensures Separated(Tokens(j))
    decreases j
  {
    hide Separated;
    match j
    case Str(content) => OneSeparated(Quoted(content));
    case Atom(text) => OneSeparated(Bare(text));
    case Obj(members) => OneSeparated(Punct(OPEN_BRACE)); MembersSeparated(members); SeparatedJoin([Punct(OPEN_BRACE)], MemberTokens(members));
    case Arr(items) => OneSeparated(Punct(OPEN_BRACKET)); ItemsSeparated(items); SeparatedJoin([Punct(OPEN_BRACKET)], ItemTokens(items));
  }

  lemma OneSeparated(t: Token)
    requires ValidToken(t)
    ensures Separated([t])
  {
  }

  lemma {:induction false} MembersSeparated(m: Members)
    requires ValidMembers(m)
    ensures Separated(MemberTokens(m))
    decreases m
  {
    hide Separated, Tokens;
    OneSeparated(Punct(CLOSE_BRACE));
    if m.Member? {
      var front, value := [Quoted(m.name), Punct(COLON)], Tokens(m.value);
      OneSeparated(Quoted(m.name));
      OneSeparated(Punct(COLON));
      SeparatedJoin([Quoted(m.name)], [Punct(COLON)]);
      assert [Quoted(m.name)] + [Punct(COLON)] == front;
      TokensSeparated(m.value);
      SeparatedJoin(front, value);
      if m.more.NoMembers? {
        SeparatedJoin(front + value, [Punct(CLOSE_BRACE)]);
      } else {
        MembersSeparated(m.more);
        OneSeparated(Punct(COMMA));
        SeparatedJoin(front + value, [Punct(COMMA)]);
        SeparatedJoin(front + value + [Punct(COMMA)], MemberTokens(m.more));
      }
    }
  }

  lemma {:induction false} ItemsSeparated(a: Items)
    requires ValidItems(a)
    ensures Separated(ItemTokens(a))
    decreases a
  {
    hide Separated, Tokens;
    OneSeparated(Punct(CLOSE_BRACKET));
    if a.Item? {
      TokensSeparated(a.value);
      if a.more.NoItems? {
        SeparatedJoin(Tokens(a.value), [Punct(CLOSE_BRACKET)]);
      } else {
        ItemsSeparated(a.more);
        OneSeparated(Punct(COMMA));
        SeparatedJoin(Tokens(a.value), [Punct(COMMA)]);
        SeparatedJoin(Tokens(a.value) + [Punct(COMMA)], ItemTokens(a.more));
      }
    }
  }

  // ----- printed documents -----

  function Kinds(ts: seq<Spaced>): (ks: seq<Token>)
    ensures |ks| == |ts| && forall i | 0 <= i < |ts| :: ks[i] == ts[i].token
  {
    seq(|ts|, i requires 0 <= i < |ts| => ts[i].token)
  }

  /** `ts` is a printing of `doc`: its tokens, whitespace wherever section 2 of RFC 8259 allows it. */
  predicate Prints(ts: seq<Spaced>, trail: bytes, doc: Json) {
    && ValidJson(doc) && Kinds(ts) == Tokens(doc) && AllWs(trail)
    && forall i | 0 <= i < |ts| :: AllWs(ts[i].ws)
  }

  lemma PrintedIsWellFormed(ts: seq<Spaced>, trail: bytes, doc: Json)
    requires Prints(ts, trail, doc)
    ensures WellFormed(ts, trail) && Separated(Kinds(ts))
  {
    TokensSeparated(doc);
    assert forall i | 0 <= i < |ts| :: ts[i].token == Kinds(ts)[i];
  }

  lemma {:induction false} TokenScanIsValueTokens(ts: seq<Spaced>, field: bytes, quoted: bool)
    ensures match TokenScan(ts, field, quoted)
            case None => ValueTokens(Kinds(ts), field, quoted) == None
            case Some(i) => i + 2 <= |ts| && ValueTokens(Kinds(ts), field, quoted) == Some(Kinds(ts[i + 2..]))
  {
    if ts != [] {
      assert Opens(Kinds(ts), field, quoted) <==> OpensMember(ts, field, quoted);
      assert Kinds(ts)[1..] == Kinds(ts[1..]);
      if OpensMember(ts, field, quoted) {
        assert Kinds(ts)[2..] == Kinds(ts[2..]);
      } else {
        TokenScanIsValueTokens(ts[1..], field, quoted);
        if TokenScan(ts[1..], field, quoted).Some? {
          var i := TokenScan(ts[1..], field, quoted).value;
          assert ts[1..][i + 2..] == ts[i + 3..];
        }
      }
    }
  }

  // What the token scan of a printed document lands on.
  lemma ScanOfPrinted(ts: seq<Spaced>, trail: bytes, doc: Json, field: bytes, quoted: bool)
    requires Prints(ts, trail, doc)
    ensures match Find(doc, field, quoted)
            case None => TokenScan(ts, field, quoted) == None
            case Some(v) =>
              TokenScan(ts, field, quoted).Some? &&
              var i := TokenScan(ts, field, quoted).value;
              var n := |Tokens(v)|;
              i + 2 + n < |ts| && ts[i + 2].token == Tokens(v)[0] && (n == 1 || ts[i + 2].token.Punct?) &&
              (ts[i + 2 + n].token == Punct(COMMA) || ts[i + 2 + n].token == Punct(CLOSE_BRACE))
  {
    hide Prints, Find, ValueTokens, TokenScan, Tokens, Finds, Kinds;
    TokenScanIsValueTokens(ts, field, quoted);
    FindInTokens(doc, [], field, quoted);
    assert Kinds(ts) == Tokens(doc) + [] by { PrintedKinds(ts, trail, doc); }
    NothingInNothing(field, quoted);
    if Find(doc, field, quoted).Some? {
      var v := Find(doc, field, quoted).value;
      FindsSomething(ValueTokens(Kinds(ts), field, quoted), v);
      LandsOn(ts, TokenScan(ts, field, quoted).value, v);
    } else {
      FindsNothing(ValueTokens(Kinds(ts), field, quoted));
    }
  }

  lemma FindsNothing(r: Option<seq<Token>>)
    requires Finds(r, None, None)
    ensures r == None
  {
  }

  lemma FindsSomething(r: Option<seq<Token>>, v: Json)
    requires Finds(r, Some(v), None)
    ensures r.Some?
  {
  }

  lemma NothingInNothing(field: bytes, quoted: bool)
    ensures ValueTokens([], field, quoted) == None
  {
  }

  lemma LandsOn(ts: seq<Spaced>, i: nat, v: Json)
    requires i + 2 <= |ts| && Finds(Some(Kinds(ts[i + 2..])), Some(v), None)
    ensures var n := |Tokens(v)|;
            i + 2 + n < |ts| && ts[i + 2].token == Tokens(v)[0] && (n == 1 || ts[i + 2].token.Punct?) &&
            (ts[i + 2 + n].token == Punct(COMMA) || ts[i + 2 + n].token == Punct(CLOSE_BRACE))
  {
    var ks := Kinds(ts[i + 2..]);
    assert ks[0] == ks[..|Tokens(v)|][0];
    assert ks[|Tokens(v)|] == ts[i + 2 + |Tokens(v)|].token;
  }

  lemma PrintedKinds(ts: seq<Spaced>, trail: bytes, doc: Json)
    requires Prints(ts, trail, doc)
    ensures Kinds(ts) == Tokens(doc) + []
  {
  }

  lemma {:induction false} FoundQuotedIsString(j: Json, field: bytes)
    ensures Find(j, field, true).Some? ==> Find(j, field, true).value.Str?
    decreases j
  {
    match j
    case Obj(members) => FoundInMembersIsString(members, field);
    case Arr(items) => FoundInItemsIsString(items, field);
    case _ =>
  }

  lemma {:induction false} FoundInMembersIsString(m: Members, field: bytes)
    ensures FindInMembers(m, field, true).Some? ==> FindInMembers(m, field, true).value.Str?
    decreases m
  {
    if m.Member? { FoundQuotedIsString(m.value, field); FoundInMembersIsString(m.more, field); }
  }

  lemma {:induction false} FoundInItemsIsString(a: Items, field: bytes)
    ensures FindInItems(a, field, true).Some? ==> FindInItems(a, field, true).value.Str?
    decreases a
  {
    if a.Item? { FoundQuotedIsString(a.value, field); FoundInItemsIsString(a.more, field); }
  }

  /** Printer and scanner: in any printing of any document, the quoted scan finds
      the first member with that name and a string value, at any depth, and
      nothing else -- the name as a value, or under another shape, is passed over. */
  lemma QuotedScanFindsMember(ts: seq<Spaced>, trail: bytes, doc: Json, field: bytes)
    requires Prints(ts, trail, doc) && IsName(field)
    ensures match Find(doc, field, true)
            case None => InBody(Text(ts, trail), field) == None
            case Some(v) =>
              v.Str? && InBody(Text(ts, trail), field).Some? &&
              Slice(Text(ts, trail), InBody(Text(ts, trail), field).value.value) == v.content
  {
    hide Text, InBody, Prints, WellFormed, Separated, Find, TokenScan, Start;
    PrintedIsWellFormed(ts, trail, doc);
    QuotedScanOfText(ts, trail, field);
    ScanOfPrinted(ts, trail, doc, field, true);
    FoundQuotedIsString(doc, field);
    if Find(doc, field, true).Some? {
      var i := TokenScan(ts, field, true).value;
      var at, content := Start(ts, i + 2) + 1, ts[i + 2].token.content;
      AgreeIsSliceEquality(Text(ts, trail), at, content, 0, |content|);
      assert content[..|content|] == content;
    }
  }

  /** The bare scan finds the first member with that name just when its value is a
      canonical number, and returns it with its digits whole and the `,` or `}`
      after them. */
  lemma BareScanFindsMember(ts: seq<Spaced>, trail: bytes, doc: Json, field: bytes)
    requires Prints(ts, trail, doc) && IsName(field)
    ensures match Find(doc, field, false)
            case Some(Atom(text)) =>
              if CanonicalNat(text) then
                BareSnippet(Text(ts, trail), field).Some? &&
                var r := BareSnippet(Text(ts, trail), field).value;
                IsBare(Text(ts, trail), field, r) &&
                Agree(Text(ts, trail), ValueAt(Text(ts, trail), field, r.start), text, 0, |text|) &&
                DigitRun(Text(ts, trail), ValueAt(Text(ts, trail), field, r.start)) ==
                ValueAt(Text(ts, trail), field, r.start) + |text|
              else BareSnippet(Text(ts, trail), field) == None
            case _ => BareSnippet(Text(ts, trail), field) == None
  {
    hide Text, BareSnippet, Prints, WellFormed, IsBare, ValueAt, DigitRun, Start, Agree, MatchesAt, Separated, Find, TokenScan;
    PrintedIsWellFormed(ts, trail, doc);
    BareScanOfText(ts, trail, field);
    ScanOfPrinted(ts, trail, doc, field, false);
    if Find(doc, field, false).Some? && Find(doc, field, false).value.Atom? {
      var text, i := Find(doc, field, false).value.text, TokenScan(ts, field, false).value;
      if CanonicalNat(text) {
        NumberRead(ts, trail, field, i, text);
      }
    }
  }

  lemma NumberRead(ts: seq<Spaced>, trail: bytes, field: bytes, i: nat, text: bytes)
    requires WellFormed(ts, trail) && IsName(field) && TokenScan(ts, field, false) == Some(i)
    requires i + 3 < |ts| && ts[i + 2].token == Bare(text) && CanonicalNat(text)
    requires BareSnippet(Text(ts, trail), field) == Some(Range(Start(ts, i), Start(ts, i + 3) + 1))
    ensures var body, at := Text(ts, trail), ValueAt(Text(ts, trail), field, Start(ts, i));
            && IsBare(body, field, Range(Start(ts, i), Start(ts, i + 3) + 1))
            && Agree(body, at, text, 0, |text|) && DigitRun(body, at) == at + |text|
  {
    hide Text, BareSnippet, WellFormed, IsBare, ValueAt, Start, MatchesAt;
    FoundIsFirstBare(Text(ts, trail), field, Range(Start(ts, i), Start(ts, i + 3) + 1));
    TokenScanIsFirst(ts, field, false);
    MatchedValueAt(ts, trail, field, false, i);
    TokenAt(ts, trail, i + 2);
    AfterScalar(ts, trail, i + 2);
    DigitRunIs(Text(ts, trail), Start(ts, i + 2), Start(ts, i + 2) + |text|);
  }
}
