/** Reveal layouts: what a prover reveals of one direction, and the complement it commits. */
module Layouts {
  import opened Octets
  import opened Ranges

  datatype Layout = Layout(revealed: seq<Range>, committed: seq<Range>)

  /** What `complement` still has to emit for the reveals left, the offset reached being `at`. */
  function ComplementFrom(revealed: seq<Range>, at: nat, len: nat): seq<Range> {
    if revealed == [] then
      if at < len then [Range(at, len)] else []
    else
      (if revealed[0].start > at then [Range(at, revealed[0].start)] else [])
      + ComplementFrom(revealed[1..], revealed[0].end, len)
  }

  method Complement(revealed: seq<Range>, len: nat) returns (out: seq<Range>)
    ensures out == ComplementFrom(revealed, 0, len)
  {
    hide ComplementFrom;
    out := [];
    var at: nat := 0;
    var i: nat := 0;
    while i < |revealed|
      invariant i <= |revealed|
      invariant out + ComplementFrom(revealed[i..], at, len) == ComplementFrom(revealed, 0, len)
    {
      var r := revealed[i];
      ComplementStep(revealed, i, at, len);
      ghost var before, rest := out, ComplementFrom(revealed[i + 1..], r.end, len);
      if r.start > at {
        out := out + [Range(at, r.start)];
        assert before + ([Range(at, r.start)] + rest) == out + rest;
      }
      at := r.end;
      i := i + 1;
    }
    ComplementEnd(revealed, at, len);
    if at < len {
      out := out + [Range(at, len)];
    }
  }

  // One turn of the loop emits the gap before the next reveal, if there is one.
  lemma ComplementStep(revealed: seq<Range>, i: nat, at: nat, len: nat)
    requires i < |revealed|
    ensures var r, rest := revealed[i], ComplementFrom(revealed[i + 1..], revealed[i].end, len);
            ComplementFrom(revealed[i..], at, len) == if r.start > at then [Range(at, r.start)] + rest else rest
  {
    assert revealed[i..][1..] == revealed[i + 1..];
  }

  lemma ComplementEnd(revealed: seq<Range>, at: nat, len: nat)
    ensures ComplementFrom(revealed[|revealed|..], at, len) == if at < len then [Range(at, len)] else []
  {
  }

  /** The layout that reveals these ranges, in offset order, and commits what they leave. */
  function RevealingLayout(revealed: seq<Range>, len: nat): Layout {
    var sorted := SortBy(revealed, StartOf);
    Layout(sorted, ComplementFrom(sorted, 0, len))
  }

  method Revealing(revealed: seq<Range>, len: nat) returns (l: Layout)
    ensures l == RevealingLayout(revealed, len)
  {
    var sorted := SortBy(revealed, StartOf);
    var committed := Complement(sorted, len);
    l := Layout(sorted, committed);
  }

  /** What the debug assertion of `revealing` demands of the sorted reveals. */
  predicate NoOverlap(sorted: seq<Range>) {
    forall i | 0 <= i < |sorted| - 1 :: sorted[i].end <= sorted[i + 1].start
  }

  predicate PairwiseDisjoint(rs: seq<Range>) {
    forall i, j | 0 <= i < j < |rs| :: rs[i].end <= rs[j].start || rs[j].end <= rs[i].start
  }

  // ----- the complement covers what the reveals leave, once -----

  lemma {:induction false} ComplementCounts(revealed: seq<Range>, at: nat, len: nat, i: int)
    requires InBounds(revealed, len) && NoOverlap(revealed) && at <= len
    requires revealed != [] ==> at <= revealed[0].start
    ensures Count(revealed, i) + Count(ComplementFrom(revealed, at, len), i) == if at <= i < len then 1 else 0
    decreases |revealed|
  {
    hide NoOverlap, InBounds;
    if revealed == [] {
      assert at < len ==> Count([Range(at, len)][1..], i) == 0;
    } else {
      var r, rest := revealed[0], revealed[1..];
      var gap := if r.start > at then [Range(at, r.start)] else [];
      NoOverlapRest(revealed);
      InBoundsRest(revealed, len);
      ComplementCounts(rest, r.end, len, i);
      CountJoin(gap, ComplementFrom(rest, r.end, len), i);
      assert gap != [] ==> Count(gap[1..], i) == 0;
    }
  }

  lemma NoOverlapRest(revealed: seq<Range>)
    requires NoOverlap(revealed) && revealed != []
    ensures NoOverlap(revealed[1..]) && (|revealed| > 1 ==> revealed[0].end <= revealed[1].start)
  {
    forall i | 0 <= i < |revealed| - 2 ensures revealed[1..][i].end <= revealed[1..][i + 1].start {
      assert revealed[i + 1].end <= revealed[i + 1 + 1].start;
    }
  }

  lemma InBoundsRest(revealed: seq<Range>, len: nat)
    requires InBounds(revealed, len) && revealed != []
    ensures InBounds(revealed[1..], len) && revealed[0].start <= revealed[0].end <= len
  {
    assert revealed[0] in revealed;
    forall r | r in revealed[1..] ensures r in revealed {}
  }

  lemma {:induction false} ComplementInBounds(revealed: seq<Range>, at: nat, len: nat)
    requires InBounds(revealed, len)
    ensures InBounds(ComplementFrom(revealed, at, len), len) && NonEmpty(ComplementFrom(revealed, at, len))
    ensures forall r | r in ComplementFrom(revealed, at, len) ::
              (r.end == len || exists q :: q in revealed && q.start == r.end) &&
              (r.start == at || exists q :: q in revealed && q.end == r.start)
    decreases |revealed|
  {
    if revealed != [] {
      assert revealed[0] in revealed;
      forall q | q in revealed[1..] ensures q in revealed {}
      ComplementInBounds(revealed[1..], revealed[0].end, len);
    }
  }

  /** The commitments of any in-bounds layout are non-empty single ranges. */
  lemma CommittedFits(revealed: seq<Range>, len: nat)
    requires InBounds(revealed, len)
    ensures var committed := RevealingLayout(revealed, len).committed; InBounds(committed, len) && NonEmpty(committed)
  {
    hide SortBy, ComplementFrom, InBounds, NonEmpty;
    SortedIsInBounds(revealed, len);
    ComplementInBounds(SortBy(revealed, StartOf), 0, len);
  }

  // ----- overlapping reveals are covered twice -----

  // From an ascending list's first start, the list and the complement of the rest cover it.
  lemma {:induction false} FirstStartCovered(rs: seq<Range>, len: nat)
    requires rs != [] && Ascending(rs, StartOf) && InBounds(rs, len) && rs[0].start < len
    ensures Count(rs, rs[0].start) + Count(ComplementFrom(rs[1..], rs[0].end, len), rs[0].start) >= 1
    decreases |rs|
  {
    hide InBounds, Ascending;
    var first, rest := rs[0], rs[1..];
    var x := first.start;
    InBoundsRest(rs, len);
    if x < first.end {
      CountSome(rs, x, 0);
    } else if rest == [] {
      CountSome([Range(x, len)], x, 0);
    } else {
      AscendingRest(rs, StartOf);
      assert StartOf(rs[0]) <= StartOf(rest[0]) by { assert rest[0] in rs; }
      var more := ComplementFrom(rest[1..], rest[0].end, len);
      if rest[0].start == x {
        FirstStartCovered(rest, len);
        assert ComplementFrom(rest, x, len) == more;
      } else {
        CountSome([Range(x, rest[0].start)], x, 0);
        CountJoin([Range(x, rest[0].start)], more, x);
      }
    }
  }

  lemma {:induction false} OverlapCountsTwice(rs: seq<Range>, at: nat, len: nat) returns (i: nat)
    requires Ascending(rs, StartOf) && InBounds(rs, len) && !NoOverlap(rs)
    ensures i < len && Count(rs, i) + Count(ComplementFrom(rs, at, len), i) >= 2
    decreases |rs|
  {
    var first, rest := rs[0], rs[1..];
    var gap := if first.start > at then [Range(at, first.start)] else [];
    assert first in rs && rs[1] in rs;
    AscendingRest(rs, StartOf);
    forall r | r in rest ensures r in rs {}
    assert rest[0] == rs[1];
    if first.end > rest[0].start {
      i := rest[0].start;
      var more := ComplementFrom(rest[1..], rest[0].end, len);
      FirstStartCovered(rest, len);
      CountJoin([], more, i);
      CountJoin(gap, ComplementFrom(rest, first.end, len), i);
    } else {
      OverlapIsLater(rs);
      i := OverlapCountsTwice(rest, first.end, len);
      CountJoin(gap, ComplementFrom(rest, first.end, len), i);
    }
  }

  lemma OverlapIsLater(rs: seq<Range>)
    requires !NoOverlap(rs) && |rs| >= 2 && rs[0].end <= rs[1].start
    ensures !NoOverlap(rs[1..])
  {
    var k :| 0 <= k < |rs| - 1 && rs[k].end > rs[k + 1].start;
    assert rs[1..][k - 1].end > rs[1..][k - 1 + 1].start;
  }

  // ----- the layout -----

  lemma SortedIsInBounds(revealed: seq<Range>, len: nat)
    requires InBounds(revealed, len)
    ensures InBounds(SortBy(revealed, StartOf), len)
  {
    SortByIsSorted(revealed, StartOf);
    SameElements(SortBy(revealed, StartOf), revealed);
  }

  /** Reveals and commitments partition the direction if and only if the sorted reveals
      pass the debug assertion. */
  lemma PartitionIffNoOverlap(revealed: seq<Range>, len: nat)
    requires InBounds(revealed, len)
    ensures var l := RevealingLayout(revealed, len);
            Partitions(l.revealed + l.committed, len) <==> NoOverlap(l.revealed)
  {
    hide Count, ComplementFrom, SortBy, Ascending;
    var l := RevealingLayout(revealed, len);
    SortByIsSorted(revealed, StartOf);
    SortedIsInBounds(revealed, len);
    if NoOverlap(l.revealed) {
      forall i | 0 <= i < len ensures Count(l.revealed + l.committed, i) == 1 {
        ComplementCounts(l.revealed, 0, len, i);
        CountJoin(l.revealed, l.committed, i);
      }
    } else {
      var i := OverlapCountsTwice(l.revealed, 0, len);
      CountJoin(l.revealed, l.committed, i);
      assert Count(l.revealed + l.committed, i) != 1;
    }
  }

  /** Sorting pairwise disjoint non-empty ranges leaves no overlap. */
  lemma DisjointSorts(revealed: seq<Range>)
    requires PairwiseDisjoint(revealed) && NonEmpty(revealed)
    ensures NoOverlap(SortBy(revealed, StartOf))
  {
    hide SortBy, Count;
    var sorted := SortBy(revealed, StartOf);
    SortByIsSorted(revealed, StartOf);
    SameElements(sorted, revealed);
    forall i | 0 <= i < |sorted| - 1 ensures sorted[i].end <= sorted[i + 1].start {
      assert StartOf(sorted[i]) <= StartOf(sorted[i + 1]);
      assert sorted[i] in revealed && sorted[i + 1] in revealed;
      if sorted[i] == sorted[i + 1] {
        TwiceInSorted(revealed, sorted, i);
      } else {
        var a :| 0 <= a < |revealed| && revealed[a] == sorted[i];
        var b :| 0 <= b < |revealed| && revealed[b] == sorted[i + 1];
      }
    }
  }

  // An element twice in the sorted list is twice in the original, so not disjoint from itself.
  lemma TwiceInSorted(revealed: seq<Range>, sorted: seq<Range>, i: nat)
    requires multiset(sorted) == multiset(revealed) && i + 1 < |sorted| && sorted[i] == sorted[i + 1]
    requires PairwiseDisjoint(revealed)
    ensures sorted[i].end <= sorted[i].start
  {
    var r := sorted[i];
    assert sorted == sorted[..i] + ([r] + ([r] + sorted[i + 2..]));
    assert multiset(sorted)[r] >= 2;
    var a, b := TwoPlaces(revealed, r);
  }

  lemma {:induction false} TwoPlaces(s: seq<Range>, r: Range) returns (a: nat, b: nat)
    requires multiset(s)[r] >= 2
    ensures a < b < |s| && s[a] == r && s[b] == r
    decreases |s|
  {
    assert s != [];
    HeadAndRest(s);
    if s[0] == r {
      assert multiset(s[1..])[r] >= 1;
      assert r in multiset(s[1..]);
      assert r in s[1..];
      var k :| 0 <= k < |s| - 1 && s[1..][k] == r;
      a, b := 0, k + 1;
    } else {
      a, b := TwoPlaces(s[1..], r);
      a, b := a + 1, b + 1;
    }
  }

  /** The commitments are maximal runs: each reaches a revealed range or an end of the direction. */
  ghost predicate MaximalRuns(l: Layout, len: nat) {
    forall c | c in l.committed ::
      && c.start < c.end <= len
      && (c.start == 0 || Count(l.revealed, c.start - 1) == 1)
      && (c.end == len || Count(l.revealed, c.end) == 1)
  }

  /** `Layout::revealing` partitions: for pairwise disjoint, non-empty, in-bounds
      ranges in any order, the reveals are their sorted permutation, the commitments
      are exactly the maximal runs they leave, and both together tile the direction. */
  lemma RevealingPartitions(revealed: seq<Range>, len: nat)
    requires InBounds(revealed, len) && NonEmpty(revealed) && PairwiseDisjoint(revealed)
    ensures var l := RevealingLayout(revealed, len);
            && multiset(l.revealed) == multiset(revealed) && Ascending(l.revealed, StartOf) && NoOverlap(l.revealed)
            && Partitions(l.revealed + l.committed, len) && MaximalRuns(l, len)
            && InBounds(l.revealed + l.committed, len) && NonEmpty(l.revealed + l.committed)
            && Tiles(l.revealed + l.committed, len)
  {
    hide Count, SortBy, ComplementFrom, Tiles, PairwiseDisjoint, Ascending;
    var l := RevealingLayout(revealed, len);
    SortByIsSorted(revealed, StartOf);
    SameElements(l.revealed, revealed);
    DisjointSorts(revealed);
    PartitionIffNoOverlap(revealed, len);
    ComplementInBounds(l.revealed, 0, len);
    PartitionTiles(l.revealed + l.committed, len);
    RunsAreMaximal(l, len);
  }

  /** A layout is settled by its reveals, however they are ordered. */
  lemma LayoutOfItsReveals(revealed: seq<Range>, len: nat)
    ensures var l := RevealingLayout(revealed, len); RevealingLayout(l.revealed, len) == l
  {
    hide SortBy, ComplementFrom;
    SortByIsSorted(revealed, StartOf);
    SortByKeepsSorted(SortBy(revealed, StartOf), StartOf);
  }

  lemma {:induction false} EndsBefore(sorted: seq<Range>, i: nat, j: nat)
    requires NoOverlap(sorted) && NonEmpty(sorted) && i < j < |sorted|
    ensures sorted[i].end <= sorted[j].start
    decreases j
  {
    assert sorted[j - 1].end <= sorted[j - 1 + 1].start && sorted[j - 1] in sorted;
    if i < j - 1 { EndsBefore(sorted, i, j - 1); }
  }

  lemma RunsAreMaximal(l: Layout, len: nat)
    requires InBounds(l.revealed, len) && NonEmpty(l.revealed) && NoOverlap(l.revealed)
    requires l.committed == ComplementFrom(l.revealed, 0, len)
    ensures MaximalRuns(l, len)
  {
    hide ComplementFrom, Count;
    ComplementInBounds(l.revealed, 0, len);
    forall c | c in l.committed ensures c.start == 0 || Count(l.revealed, c.start - 1) == 1 {
      if c.start != 0 {
        var q :| q in l.revealed && q.end == c.start;
        RevealedOnce(l.revealed, len, q, c.start - 1);
      }
    }
    forall c | c in l.committed ensures c.end == len || Count(l.revealed, c.end) == 1 {
      if c.end != len {
        var q :| q in l.revealed && q.start == c.end;
        RevealedOnce(l.revealed, len, q, c.end);
      }
    }
  }

  lemma RevealedOnce(revealed: seq<Range>, len: nat, q: Range, i: nat)
    requires InBounds(revealed, len) && NoOverlap(revealed) && q in revealed && Covers(q, i)
    ensures Count(revealed, i) == 1
  {
    hide ComplementFrom;
    var k :| 0 <= k < |revealed| && revealed[k] == q;
    CountSome(revealed, i, k);
    ComplementCounts(revealed, 0, len, i);
  }

  /** In offset order, the slices rebuild the transcript. */
  lemma LayoutRebuilds(data: bytes, revealed: seq<Range>)
    requires InBounds(revealed, |data|) && NonEmpty(revealed) && PairwiseDisjoint(revealed)
    ensures var l := RevealingLayout(revealed, |data|);
            var all := SortBy(l.revealed + l.committed, StartOf);
            InBounds(all, |data|) && Pieces(data, all) == data
  {
    hide SortBy, ComplementFrom, Pieces;
    var l := RevealingLayout(revealed, |data|);
    RevealingPartitions(revealed, |data|);
    SortedIsInBounds(l.revealed + l.committed, |data|);
    TilingRebuilds(data, SortBy(l.revealed + l.committed, StartOf), 0);
  }
}
