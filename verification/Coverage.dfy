/** From a chosen layout to the signed record: what the notary emits for an honest
    session tiles both directions, and so does what a reader decodes from it. */
module Coverage {
  import opened Wrappers
  import opened Octets
  import opened Ranges
  import opened Layouts
  import opened Record
  import opened Attest

  // ----- the normal form of revealed ranges -----

  /** `current` merged with the ascending ranges behind it, as far as they touch. */
  function Merge(current: Range, rest: seq<Range>): (merged: seq<Range>)
    ensures merged != []
    decreases |rest|
  {
    if rest == [] then [current]
    else if rest[0].start <= current.end then
      Merge(Range(current.start, if rest[0].end > current.end then rest[0].end else current.end), rest[1..])
    else [current] + Merge(rest[0], rest[1..])
  }

  /** The ranges that hold any offset at all. */
  function Inhabited(rs: seq<Range>): seq<Range> {
    if rs == [] then []
    else if rs[0].start < rs[0].end then [rs[0]] + Inhabited(rs[1..])
    else Inhabited(rs[1..])
  }

  /** The normal form of any ranges: empty ones dropped, touching ones merged. */
  function Normalized(rs: seq<Range>): seq<Range> {
    var sorted := Inhabited(SortBy(rs, StartOf));
    if sorted == [] then [] else Merge(sorted[0], sorted[1..])
  }

  /** Dropping the empty ranges of a list without overlap changes no coverage. */
  lemma {:induction false} InhabitedKeeps(rs: seq<Range>, len: nat)
    requires InBounds(rs, len) && NoOverlap(rs)
    ensures var kept := Inhabited(rs);
            && NonEmpty(kept) && InBounds(kept, len) && NoOverlap(kept)
            && (kept != [] ==> rs[0].start <= kept[0].start)
            && forall i :: Count(kept, i) == Count(rs, i)
    decreases |rs|
  {
    hide NonEmpty, NoOverlap, InBounds, Count;
    if rs == [] {
      NothingKept(len);
    } else {
      NoOverlapRest(rs);
      InBoundsRest(rs, len);
      InhabitedKeeps(rs[1..], len);
      var more := Inhabited(rs[1..]);
      if rs[0].start < rs[0].end { KeptCons(rs[0], more, len); }
      forall i ensures Count(Inhabited(rs), i) == Count(rs, i) {
        assert rs == [rs[0]] + rs[1..];
        CountCons(rs[0], rs[1..], i);
        CountCons(rs[0], more, i);
      }
    }
  }

  lemma NothingKept(len: nat)
    ensures NonEmpty([]) && InBounds([], len) && NoOverlap([])
  {
  }

  lemma KeptCons(r: Range, rs: seq<Range>, len: nat)
    requires NonEmpty(rs) && InBounds(rs, len) && NoOverlap(rs) && r.start < r.end <= len
    requires rs != [] ==> r.end <= rs[0].start
    ensures NonEmpty([r] + rs) && InBounds([r] + rs, len) && NoOverlap([r] + rs)
  {
    var all := [r] + rs;
    forall i | 0 <= i < |all| - 1 ensures all[i].end <= all[i + 1].start {
      if i > 0 { assert rs[i - 1].end <= rs[i - 1 + 1].start; }
    }
  }

  lemma {:induction false} NoOverlapAscends(rs: seq<Range>)
    requires NoOverlap(rs) && NonEmpty(rs)
    ensures Ascending(rs, StartOf)
  {
    forall i, j | 0 <= i < j < |rs| ensures StartOf(rs[i]) <= StartOf(rs[j]) {
      EndsBefore(rs, i, j);
      assert rs[i] in rs;
    }
  }

  lemma {:induction false} MergeIsNormal(current: Range, rest: seq<Range>, len: nat)
    requires Ascending([current] + rest, StartOf) && NonEmpty([current] + rest) && InBounds([current] + rest, len)
    ensures Normal(Merge(current, rest)) && InBounds(Merge(current, rest), len)
    ensures Merge(current, rest)[0].start == current.start
    decreases |rest|
  {
    hide Ascending, NonEmpty, InBounds;
    Facts(current, rest, len);
    if rest == [] {
      SingleIsNormal(current, len);
    } else if rest[0].start <= current.end {
      var wider := Range(current.start, if rest[0].end > current.end then rest[0].end else current.end);
      WidenedIsAscending(current, rest, wider, len);
      MergeIsNormal(wider, rest[1..], len);
    } else {
      assert [rest[0]] + rest[1..] == rest;
      MergeIsNormal(rest[0], rest[1..], len);
      NormalCons(current, Merge(rest[0], rest[1..]), len);
    }
  }

  lemma Facts(current: Range, rest: seq<Range>, len: nat)
    requires Ascending([current] + rest, StartOf) && NonEmpty([current] + rest) && InBounds([current] + rest, len)
    ensures current.start < current.end <= len
    ensures rest != [] ==> current.start <= rest[0].start < rest[0].end <= len
    ensures Ascending(rest, StartOf) && NonEmpty(rest) && InBounds(rest, len)
  {
    var all := [current] + rest;
    assert all[1..] == rest;
    assert all[0] in all;
    AscendingRest(all, StartOf);
    forall r | r in rest ensures r in all {}
    if rest != [] { assert all[1] in all && StartOf(all[0]) <= StartOf(all[1]); }
  }

  lemma SingleIsNormal(r: Range, len: nat)
    requires r.start < r.end <= len
    ensures Normal([r]) && InBounds([r], len)
  {
  }

  lemma NormalCons(r: Range, rs: seq<Range>, len: nat)
    requires Normal(rs) && InBounds(rs, len) && rs != [] && r.start < r.end < rs[0].start && r.end <= len
    ensures Normal([r] + rs) && InBounds([r] + rs, len)
  {
    var all := [r] + rs;
    forall i | 0 <= i < |all| - 1 ensures all[i].end < all[i + 1].start {
      if i > 0 { assert rs[i - 1].end < rs[i - 1 + 1].start; }
    }
  }

  lemma WidenedIsAscending(current: Range, rest: seq<Range>, wider: Range, len: nat)
    requires Ascending([current] + rest, StartOf) && NonEmpty([current] + rest) && InBounds([current] + rest, len)
    requires rest != [] && wider.start == current.start && current.start < wider.end <= len
    ensures Ascending([wider] + rest[1..], StartOf) && NonEmpty([wider] + rest[1..]) && InBounds([wider] + rest[1..], len)
  {
    var all := [current] + rest;
    assert all[1..] == rest;
    AscendingRest(all, StartOf);
    AscendingRest(rest, StartOf);
    forall r | r in rest[1..] ensures r in all && wider.start <= r.start {
      assert r in rest;
      assert r in all;
      assert StartOf(all[0]) <= StartOf(r);
    }
    if rest[1..] != [] { assert rest[1..][0] in rest[1..]; }
    AscendingCons(wider, rest[1..], StartOf);
  }

  /** Merging disjoint ranges covers what they covered, as often. */
  lemma {:induction false} MergeCounts(current: Range, rest: seq<Range>, i: int)
    requires NoOverlap([current] + rest) && NonEmpty([current] + rest)
    ensures Count(Merge(current, rest), i) == Count([current] + rest, i)
    decreases |rest|
  {
    hide Count, Covers, NoOverlap, NonEmpty;
    if rest == [] {
      assert Merge(current, rest) == [current] + rest;
    } else {
      var next, more := rest[0], rest[1..];
      Apart(current, rest);
      assert rest == [next] + more;
      CountCons(current, rest, i);
      CountCons(next, more, i);
      if next.start <= current.end {
        var wider := Range(current.start, next.end);
        WidenedNoOverlap(wider, rest);
        MergeCounts(wider, more, i);
        CountCons(wider, more, i);
        TouchingCover(current, next, wider, i);
      } else {
        MergeCounts(next, more, i);
        CountCons(current, Merge(next, more), i);
      }
    }
  }

  lemma Apart(current: Range, rest: seq<Range>)
    requires NoOverlap([current] + rest) && NonEmpty([current] + rest) && rest != []
    ensures NoOverlap(rest) && NonEmpty(rest)
    ensures current.start < current.end <= rest[0].start < rest[0].end
  {
    var all := [current] + rest;
    assert all[1..] == rest;
    assert all[0] in all && all[1] in all && all[0].end <= all[1].start;
    NoOverlapRest(all);
    forall r | r in rest ensures r in all {}
  }

  lemma TouchingCover(a: Range, b: Range, c: Range, i: int)
    requires a.start < a.end == b.start < b.end && c == Range(a.start, b.end)
    ensures (if Covers(c, i) then 1 else 0) == (if Covers(a, i) then 1 else 0) + (if Covers(b, i) then 1 else 0)
  {
  }

  lemma WidenedNoOverlap(wider: Range, rest: seq<Range>)
    requires NoOverlap(rest) && NonEmpty(rest) && rest != [] && wider.start < wider.end == rest[0].end
    ensures NoOverlap([wider] + rest[1..]) && NonEmpty([wider] + rest[1..])
  {
    var all := [wider] + rest[1..];
    forall k | 0 <= k < |all| - 1 ensures all[k].end <= all[k + 1].start {
      assert rest[k].end <= rest[k + 1].start;
    }
    forall r | r in all ensures r.start < r.end {
      if r != wider { assert r in rest[1..]; assert r in rest; }
    }
  }

  /** Reveals in bounds that pass the debug assertion, empty ones allowed. */
  predicate Openable(revealed: seq<Range>, len: nat) {
    InBounds(revealed, len) && NoOverlap(SortBy(revealed, StartOf))
  }

  /** The normal form of reveals that do not overlap covers exactly the reveals. */
  lemma NormalizedIsNormal(rs: seq<Range>, len: nat)
    requires Openable(rs, len)
    ensures Normal(Normalized(rs)) && InBounds(Normalized(rs), len)
    ensures forall i :: Count(Normalized(rs), i) == Count(rs, i)
  {
    hide SortBy, Merge, Count, Ascending, Inhabited;
    var all := SortBy(rs, StartOf);
    SortByIsSorted(rs, StartOf);
    SortedIsInBounds(rs, len);
    InhabitedKeeps(all, len);
    var sorted := Inhabited(all);
    NoOverlapAscends(sorted);
    if sorted != [] {
      assert [sorted[0]] + sorted[1..] == sorted;
      MergeIsNormal(sorted[0], sorted[1..], len);
    }
    forall i ensures Count(Normalized(rs), i) == Count(rs, i) {
      if sorted != [] { MergeCounts(sorted[0], sorted[1..], i); }
      CountPermutes(all, rs, i);
    }
  }

  // ----- an honest session -----

  /** One commitment a prover made: its direction, the range it covers, and its hash. */
  datatype Made = Made(direction: Direction, range: Range, hash: bytes32)

  /** The set of offsets of one range: none at all when it is empty. */
  function SetOf(r: Range): RangeSet {
    if r.start < r.end then [r] else []
  }

  function Committed(m: Made): TranscriptCommitment {
    Hash(m.direction, SetOf(m.range), TypedHash(Sha256, m.hash))
  }

  function AllCommitted(made: seq<Made>): seq<TranscriptCommitment> {
    if made == [] then [] else [Committed(made[0])] + AllCommitted(made[1..])
  }

  /** The ranges one direction's commitments cover, in the order they were made. */
  function RangesMade(made: seq<Made>, direction: Direction): seq<Range> {
    if made == [] then []
    else if made[0].direction == direction then [made[0].range] + RangesMade(made[1..], direction)
    else RangesMade(made[1..], direction)
  }

  /** The transcript as the notary sees it: revealed bytes open, the rest blank. */
  function Opened(data: bytes, revealed: seq<Range>): bytes {
    seq(|data|, i requires 0 <= i < |data| => if Count(revealed, i) > 0 then data[i] else 0)
  }

  function DirectionOf(data: bytes, revealed: seq<Range>): PartialDirection
    requires Openable(revealed, |data|)
  {
    NormalizedIsNormal(revealed, |data|);
    PartialDirection(Opened(data, revealed), Normalized(revealed))
  }

  /** One direction of an honest session: a layout of in-bounds reveals that do not
      overlap, and one commitment for each range it commits. */
  ghost predicate HonestDirection(data: bytes, l: Layout, made: seq<Made>, direction: Direction) {
    && |data| < U32_LIMIT
    && Openable(l.revealed, |data|) && l == RevealingLayout(l.revealed, |data|)
    && multiset(RangesMade(made, direction)) == multiset(l.committed)
  }

  lemma {:induction false} MadeIsDescribable(made: seq<Made>)
    requires forall m | m in made :: m.range.start < m.range.end < U32_LIMIT
    ensures forall c | c in AllCommitted(made) :: c.Hash? && Describable(c)
    ensures forall direction :: Map(Entries(AllCommitted(made), direction), SpanOf) == RangesMade(made, direction)
  {
    if made != [] {
      assert made[0] in made;
      forall m | m in made[1..] ensures m in made {}
      MadeIsDescribable(made[1..]);
      assert AllCommitted(made)[1..] == AllCommitted(made[1..]);
      forall direction ensures Map(Entries(AllCommitted(made), direction), SpanOf) == RangesMade(made, direction) {
        if made[0].direction == direction {
          var e, more := EntryOf(Committed(made[0])), Entries(AllCommitted(made[1..]), direction);
          assert Entries(AllCommitted(made), direction) == [e] + more;
          assert ([e] + more)[1..] == more;
        }
      }
    }
  }

  // ----- the record's spans -----

  function SpanOf(c: RangeCommitment): Range { Range(c.start, c.end) }

  function RevealedSpan(r: RevealedRange): Range { Range(r.start, r.start + |r.data|) }

  /** Every range a block accounts for. */
  function Spans(b: DirectionBlock): seq<Range> { Map(b.revealed, RevealedSpan) + Map(b.commitments, SpanOf) }

  /** A revealed range carries the transcript's bytes at its offset. */
  predicate CarriesTranscript(b: DirectionBlock, data: bytes) {
    forall i | 0 <= i < |b.revealed| ::
      b.revealed[i].start + |b.revealed[i].data| <= |data| &&
      b.revealed[i].data == data[b.revealed[i].start..b.revealed[i].start + |b.revealed[i].data|]
  }

  lemma OpenedHolds(data: bytes, revealed: seq<Range>, r: Range)
    requires Openable(revealed, |data|) && r in Normalized(revealed)
    ensures r.start < r.end <= |data| && Opened(data, revealed)[r.start..r.end] == data[r.start..r.end]
  {
    hide Normalized, Count, Openable;
    NormalizedIsNormal(revealed, |data|);
    var view := Opened(data, revealed);
    var k :| 0 <= k < |Normalized(revealed)| && Normalized(revealed)[k] == r;
    forall i | r.start <= i < r.end ensures view[i] == data[i] {
      CountSome(Normalized(revealed), i, k);
    }
  }

  /** One direction of an honest session: the block exists, tiles, and carries the transcript. */
  lemma HonestBlock(s: ObservedSession, direction: Direction, data: bytes, l: Layout, made: seq<Made>)
    requires HonestDirection(data, l, made, direction) && Side(s, direction) == DirectionOf(data, l.revealed)
    requires s.commitments == AllCommitted(made) && ValidSession(s)
    requires forall m | m in made :: m.range.start < m.range.end < U32_LIMIT
    ensures BlockFromObserved(s, direction).Ok?
    ensures var b := BlockFromObserved(s, direction).value;
            && Tiles(Spans(b), |data|) && CarriesTranscript(b, data)
            && Map(b.revealed, RevealedSpan) == Normalized(l.revealed)
            && multiset(Map(b.commitments, SpanOf)) == multiset(l.committed)
  {
    hide SortBy, Count, Normalized, Entries, AllCommitted, RangesMade, RevealingLayout, Describable, BlockFromObserved,
      Ascending, Tiles, Map, Normal, Openable, Opened, CarriesTranscript;
    var side := Side(s, direction);
    MadeIsDescribable(made);
    OpenedLength(data, l.revealed);
    BlockOf(s, direction);
    var b := BlockFromObserved(s, direction).value;
    SortByIsSorted(Entries(s.commitments, direction), CommitmentStart);
    RevealedSpansAre(b, side, data, l.revealed);
    MapPermutes(b.commitments, Entries(s.commitments, direction), SpanOf);
    SpansPartition(b, data, l, made, direction);
    PartitionTiles(Spans(b), |data|);
  }

  lemma RevealedSpansAre(b: DirectionBlock, side: PartialDirection, data: bytes, revealed: seq<Range>)
    requires Openable(revealed, |data|) && side == DirectionOf(data, revealed) && ValidDirection(side)
    requires Opens(b.revealed, side)
    ensures Map(b.revealed, RevealedSpan) == Normalized(revealed) && CarriesTranscript(b, data)
  {
    hide Normalized, Opened, Count, Openable, Map, Normal;
    forall i | 0 <= i < |b.revealed|
      ensures RevealedSpan(b.revealed[i]) == Normalized(revealed)[i]
      ensures b.revealed[i].start + |b.revealed[i].data| <= |data|
      ensures b.revealed[i].data == data[b.revealed[i].start..b.revealed[i].start + |b.revealed[i].data|]
    {
      OpenedHolds(data, revealed, Normalized(revealed)[i]);
    }
  }

  // Both halves of an honest layout together hold every offset once.
  lemma HonestPartitions(data: bytes, l: Layout, made: seq<Made>, direction: Direction)
    requires HonestDirection(data, l, made, direction)
    ensures Partitions(l.revealed + l.committed, |data|) && InBounds(l.committed, |data|) && NonEmpty(l.committed)
  {
    hide RangesMade, SortBy, ComplementFrom, Partitions, NoOverlap;
    PartitionIffNoOverlap(l.revealed, |data|);
    CommittedFits(l.revealed, |data|);
  }

  lemma SpansPartition(b: DirectionBlock, data: bytes, l: Layout, made: seq<Made>, direction: Direction)
    requires HonestDirection(data, l, made, direction) && Map(b.revealed, RevealedSpan) == Normalized(l.revealed)
    requires multiset(Map(b.commitments, SpanOf)) == multiset(l.committed)
    ensures InBounds(Spans(b), |data|) && NonEmpty(Spans(b)) && Partitions(Spans(b), |data|)
  {
    hide Count, Normalized, Openable, RangesMade, RevealingLayout, Map;
    HonestPartitions(data, l, made, direction);
    NormalizedIsNormal(l.revealed, |data|);
    var shown, closed := Normalized(l.revealed), Map(b.commitments, SpanOf);
    SameElements(closed, l.committed);
    forall i | 0 <= i < |data| ensures Count(Spans(b), i) == 1 {
      CountJoin(shown, closed, i);
      CountPermutes(closed, l.committed, i);
      CountJoin(l.revealed, l.committed, i);
    }
  }

  /** Both directions of an honest session, from the layouts and the commitments alone. */
  ghost predicate HonestSession(sent: bytes, sentLayout: Layout, recv: bytes, recvLayout: Layout, made: seq<Made>,
                                s: ObservedSession) {
    && HonestDirection(sent, sentLayout, made, Sent) && s.sent == DirectionOf(sent, sentLayout.revealed)
    && HonestDirection(recv, recvLayout, made, Received) && s.received == DirectionOf(recv, recvLayout.revealed)
    && s.commitments == AllCommitted(made)
  }

  lemma {:induction false} MadeInRanges(made: seq<Made>, m: Made)
    requires m in made
    ensures m.range in RangesMade(made, m.direction)
  {
    if made[0] != m {
      HeadAndRest(made);
      MadeInRanges(made[1..], m);
    }
  }

  /** No commitment of an honest layout covers an empty set: `complement` emits
      only non-empty single ranges. */
  lemma MadeFits(data: bytes, l: Layout, made: seq<Made>, m: Made)
    requires HonestDirection(data, l, made, m.direction) && m in made
    ensures m.range.start < m.range.end < U32_LIMIT && SetOf(m.range) == [m.range]
  {
    hide RangesMade, RevealingLayout, Openable, Partitions;
    HonestPartitions(data, l, made, m.direction);
    MadeInRanges(made, m);
    SameElements(RangesMade(made, m.direction), l.committed);
  }

  /** What a record of an honest session must be: both lengths, and both directions
      tiled, the revealed bytes the transcript's own. */
  ghost predicate Covered(d: AttestedData, sent: bytes, recv: bytes) {
    && d.sentTranscriptLength == |sent| && d.recvTranscriptLength == |recv|
    && Tiles(Spans(d.sent), |sent|) && CarriesTranscript(d.sent, sent)
    && Tiles(Spans(d.received), |recv|) && CarriesTranscript(d.received, recv)
  }

  /** End-to-end coverage. For any transcript that fits 32-bit offsets, any layouts
      of disjoint reveals, and one commitment for each range they commit, in any
      order and with the directions mixed: the record exists and is covered. */
  lemma HonestSessionIsCovered(keccak: bytes -> bytes32, sent: bytes, sentLayout: Layout, recv: bytes, recvLayout: Layout,
                               made: seq<Made>, s: ObservedSession)
    requires HonestSession(sent, sentLayout, recv, recvLayout, made, s)
    ensures ValidSession(s) && FromObserved(keccak, s).Ok? && Covered(FromObserved(keccak, s).value, sent, recv)
    ensures BlockFromObserved(s, Sent) == Ok(FromObserved(keccak, s).value.sent)
    ensures BlockFromObserved(s, Received) == Ok(FromObserved(keccak, s).value.received)
  {
    hide HonestDirection, AllCommitted, Tiles, CarriesTranscript, BlockFromObserved, AuthorityIdOf, DirectionOf;
    DirectionIsValid(sent, sentLayout, made, Sent);
    DirectionIsValid(recv, recvLayout, made, Received);
    forall m | m in made ensures m.range.start < m.range.end < U32_LIMIT {
      if m.direction == Sent { MadeFits(sent, sentLayout, made, m); } else { MadeFits(recv, recvLayout, made, m); }
    }
    HonestBlock(s, Sent, sent, sentLayout, made);
    HonestBlock(s, Received, recv, recvLayout, made);
  }

  lemma DirectionIsValid(data: bytes, l: Layout, made: seq<Made>, direction: Direction)
    requires HonestDirection(data, l, made, direction)
    ensures |data| < U32_LIMIT && Openable(l.revealed, |data|)
    ensures ValidDirection(DirectionOf(data, l.revealed)) && |DirectionOf(data, l.revealed).data| == |data|
  {
    hide Normalized, Normal, Openable, RangesMade, RevealingLayout;
    NormalizedIsNormal(l.revealed, |data|);
    OpenedLength(data, l.revealed);
  }

  lemma OpenedLength(data: bytes, revealed: seq<Range>)
    ensures |Opened(data, revealed)| == |data|
  {
  }

  /** Any in-bounds reveals whose layout passes the debug assertion, empty ones
      included, make an honest direction once the layout's ranges are committed. */
  lemma OpenableRevealsAreHonest(data: bytes, revealed: seq<Range>, made: seq<Made>, direction: Direction)
    requires |data| < U32_LIMIT && Openable(revealed, |data|)
    requires multiset(RangesMade(made, direction)) == multiset(RevealingLayout(revealed, |data|).committed)
    ensures HonestDirection(data, RevealingLayout(revealed, |data|), made, direction)
  {
    hide SortBy, ComplementFrom, RangesMade, InBounds, NoOverlap;
    LayoutOfItsReveals(revealed, |data|);
    SortedIsInBounds(revealed, |data|);
  }

  /** Disjoint non-empty in-bounds reveals, in any order, always do. */
  lemma DisjointRevealsAreHonest(data: bytes, revealed: seq<Range>, made: seq<Made>, direction: Direction)
    requires |data| < U32_LIMIT && InBounds(revealed, |data|) && NonEmpty(revealed) && PairwiseDisjoint(revealed)
    requires multiset(RangesMade(made, direction)) == multiset(RevealingLayout(revealed, |data|).committed)
    ensures HonestDirection(data, RevealingLayout(revealed, |data|), made, direction)
  {
    hide HonestDirection, RevealingLayout, RangesMade, SortBy, NoOverlap, InBounds, NonEmpty, PairwiseDisjoint;
    DisjointSorts(revealed);
    OpenableRevealsAreHonest(data, revealed, made, direction);
  }

  // ----- the signed preimage -----

  lemma CoveredBlockEncodes(b: DirectionBlock, data: bytes)
    requires Tiles(Spans(b), |data|) && CarriesTranscript(b, data) && |data| < U32_LIMIT
    ensures EncodableBlock(b)
  {
    hide SortBy, Ascending;
    SortByIsSorted(Spans(b), StartOf);
    TilingIsShort(SortBy(Spans(b), StartOf), 0, |data|);
    assert |Spans(b)| == |b.revealed| + |b.commitments|;
  }

  /** From the signed preimage alone a reader recovers the record, and the record
      accounts for every byte of both transcripts exactly once. */
  lemma PreimageIsCovered(keccak: bytes -> bytes32, sent: bytes, sentLayout: Layout, recv: bytes, recvLayout: Layout,
                          made: seq<Made>, s: ObservedSession, preimage: bytes)
    requires HonestSession(sent, sentLayout, recv, recvLayout, made, s) && ValidSession(s)
    requires FromObserved(keccak, s).Ok? && preimage == Encode(FromObserved(keccak, s).value)
    ensures Decode(preimage).Some? && Decode(preimage).value.1 == [] && Covered(Decode(preimage).value.0, sent, recv)
    ensures var d := Decode(preimage).value.0; d.authorityId == keccak(Lowercase(s.authority)) && d.createdAt == s.createdAt
  {
    hide HonestDirection, AllCommitted, Tiles, CarriesTranscript, BlockFromObserved, AuthorityIdOf, DirectionOf, Encode, Decode,
      EncodableBlock, Spans;
    HonestSessionIsCovered(keccak, sent, sentLayout, recv, recvLayout, made, s);
    DirectionIsValid(sent, sentLayout, made, Sent);
    DirectionIsValid(recv, recvLayout, made, Received);
    var d := FromObserved(keccak, s).value;
    CoveredBlockEncodes(d.sent, sent);
    CoveredBlockEncodes(d.received, recv);
    DecodesBack(d, []);
    assert Encode(d) + [] == Encode(d);
    RecordCarriesTheSession(keccak, s, d);
  }
}
