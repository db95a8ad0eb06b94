/** Lists of ranges: how often they cover an offset, how they sort, and when they tile. */
module Ranges {
  import opened Octets

  // ----- stable sorting by a key -----

  function Insert<T>(x: T, s: seq<T>, key: T -> int): seq<T> {
    if s == [] || key(x) <= key(s[0]) then [x] + s else [s[0]] + Insert(x, s[1..], key)
  }

  /** What `sort_by_key` returns: it is stable, which settles the order of equal keys. */
  function SortBy<T>(s: seq<T>, key: T -> int): seq<T> {
    if s == [] then [] else Insert(s[0], SortBy(s[1..], key), key)
  }

  predicate Ascending<T>(s: seq<T>, key: T -> int) {
    forall i, j | 0 <= i < j < |s| :: key(s[i]) <= key(s[j])
  }

  lemma HeadAndRest<T>(s: seq<T>)
    requires s != []
    ensures multiset(s) == multiset{s[0]} + multiset(s[1..])
    ensures forall x | x in s :: x == s[0] || x in s[1..]
  {
    assert s == [s[0]] + s[1..];
  }

  lemma SameElements<T>(a: seq<T>, b: seq<T>)
    requires multiset(a) == multiset(b)
    ensures |a| == |b| && (forall x :: x in a <==> x in b)
  {
    assert |multiset(a)| == |a| && |multiset(b)| == |b|;
    forall x ensures x in a <==> x in b {
      assert x in a <==> x in multiset(a);
      assert x in b <==> x in multiset(b);
    }
  }

  lemma {:induction false} InsertPermutes<T>(x: T, s: seq<T>, key: T -> int)
    ensures multiset(Insert(x, s, key)) == multiset{x} + multiset(s)
  {
    if s == [] || key(x) <= key(s[0]) {
      HeadAndRest([x] + s);
      assert ([x] + s)[1..] == s;
    } else {
      var rest := Insert(x, s[1..], key);
      InsertPermutes(x, s[1..], key);
      HeadAndRest(s);
      HeadAndRest([s[0]] + rest);
      assert ([s[0]] + rest)[1..] == rest;
    }
  }

  lemma AscendingCons<T>(x: T, s: seq<T>, key: T -> int)
    requires Ascending(s, key) && (s != [] ==> key(x) <= key(s[0]))
    ensures Ascending([x] + s, key)
  {
    forall j | 0 <= j < |s| ensures key(x) <= key(s[j]) {
      assert key(s[0]) <= key(s[j]);
    }
  }

  lemma AscendingRest<T>(s: seq<T>, key: T -> int)
    requires Ascending(s, key) && s != []
    ensures Ascending(s[1..], key)
    ensures forall x | x in s :: key(s[0]) <= key(x)
  {
    forall x | x in s ensures key(s[0]) <= key(x) {
      var k :| 0 <= k < |s| && s[k] == x;
      assert k > 0 ==> key(s[0]) <= key(s[k]);
    }
    forall i, j | 0 <= i < j < |s| - 1 ensures key(s[1..][i]) <= key(s[1..][j]) {
      assert key(s[i + 1]) <= key(s[j + 1]);
    }
  }

  lemma {:induction false} InsertAscends<T>(x: T, s: seq<T>, key: T -> int)
    requires Ascending(s, key)
    ensures Ascending(Insert(x, s, key), key)
    ensures s != [] && key(x) > key(s[0]) ==> Insert(x, s, key)[0] == s[0]
  {
    if s == [] || key(x) <= key(s[0]) {
      AscendingCons(x, s, key);
    } else {
      AscendingRest(s, key);
      InsertAscends(x, s[1..], key);
      AscendingCons(s[0], Insert(x, s[1..], key), key);
    }
  }

  /** The sorted list is ascending and a permutation. */
  lemma {:induction false} SortByIsSorted<T>(s: seq<T>, key: T -> int)
    ensures Ascending(SortBy(s, key), key) && multiset(SortBy(s, key)) == multiset(s)
    ensures |SortBy(s, key)| == |s|
  {
    if s != [] {
      SortByIsSorted(s[1..], key);
      InsertAscends(s[0], SortBy(s[1..], key), key);
      InsertPermutes(s[0], SortBy(s[1..], key), key);
      HeadAndRest(s);
    }
    SameElements(SortBy(s, key), s);
  }

  /** The elements with key `c`, in order. */
  function WithKey<T>(s: seq<T>, key: T -> int, c: int): seq<T> {
    if s == [] then [] else if key(s[0]) == c then [s[0]] + WithKey(s[1..], key, c) else WithKey(s[1..], key, c)
  }

  lemma WithKeyCons<T>(x: T, s: seq<T>, key: T -> int, c: int)
    ensures WithKey([x] + s, key, c) == if key(x) == c then [x] + WithKey(s, key, c) else WithKey(s, key, c)
  {
    assert ([x] + s)[1..] == s;
  }

  lemma {:induction false} InsertIsStable<T>(x: T, s: seq<T>, key: T -> int, c: int)
    ensures WithKey(Insert(x, s, key), key, c) == WithKey([x] + s, key, c)
  {
    if s != [] && key(x) > key(s[0]) {
      var y, more := s[0], s[1..];
      InsertIsStable(x, more, key, c);
      KeysApart(x, y, more, Insert(x, more, key), key, c);
      assert s == [y] + more;
    }
  }

  lemma KeysApart<T>(x: T, y: T, more: seq<T>, inserted: seq<T>, key: T -> int, c: int)
    requires key(x) != key(y) && WithKey(inserted, key, c) == WithKey([x] + more, key, c)
    ensures WithKey([y] + inserted, key, c) == WithKey([x] + ([y] + more), key, c)
  {
    hide WithKey;
    WithKeyCons(y, inserted, key, c);
    WithKeyCons(x, more, key, c);
    WithKeyCons(x, [y] + more, key, c);
    WithKeyCons(y, more, key, c);
  }

  /** Sorting is stable: it keeps the order of elements with equal keys. */
  lemma {:induction false} SortIsStable<T>(s: seq<T>, key: T -> int, c: int)
    ensures WithKey(SortBy(s, key), key, c) == WithKey(s, key, c)
  {
    if s != [] {
      SortIsStable(s[1..], key, c);
      InsertIsStable(s[0], SortBy(s[1..], key), key, c);
      WithKeyCons(s[0], SortBy(s[1..], key), key, c);
    }
  }

  /** Sorting leaves a sorted list alone. */
  lemma {:induction false} SortByKeepsSorted<T>(s: seq<T>, key: T -> int)
    requires Ascending(s, key)
    ensures SortBy(s, key) == s
  {
    if s != [] {
      AscendingRest(s, key);
      SortByKeepsSorted(s[1..], key);
      if |s| > 1 { assert key(s[0]) <= key(s[1]); }
    }
  }

  /** Sorting is the only ascending permutation when the keys are distinct. */
  lemma {:induction false} SortedIsUnique<T>(a: seq<T>, b: seq<T>, key: T -> int)
    requires Ascending(a, key) && Ascending(b, key) && multiset(a) == multiset(b)
    requires forall x, y | x in a && y in a && x != y :: key(x) != key(y)
    ensures a == b
    decreases |a|
  {
    SameElements(a, b);
    if a != [] {
      AscendingRest(a, key);
      AscendingRest(b, key);
      assert a[0] in b && b[0] in a;
      assert key(a[0]) == key(b[0]);
      RestsAreSame(a, b);
      SortedIsUnique(a[1..], b[1..], key);
    }
  }

  lemma RestsAreSame<T>(a: seq<T>, b: seq<T>)
    requires multiset(a) == multiset(b) && a != [] && b != [] && a[0] == b[0]
    ensures multiset(a[1..]) == multiset(b[1..])
    ensures forall x | x in a[1..] :: x in a
  {
    HeadAndRest(a);
    HeadAndRest(b);
    assert multiset(a[1..]) == multiset(a) - multiset{a[0]};
    assert multiset(b[1..]) == multiset(b) - multiset{a[0]};
  }

  // ----- images of lists -----

  function Map<T, U>(s: seq<T>, f: T -> U): (r: seq<U>)
    ensures |r| == |s| && forall i | 0 <= i < |s| :: r[i] == f(s[i])
  {
    if s == [] then [] else [f(s[0])] + Map(s[1..], f)
  }

  lemma {:induction false} MapJoin<T, U>(a: seq<T>, b: seq<T>, f: T -> U)
    ensures Map(a + b, f) == Map(a, f) + Map(b, f)
  {
    assert |a + b| == |a| + |b|;
  }

  lemma TakenOut<T>(s: seq<T>, k: nat)
    requires k < |s|
    ensures multiset(s[..k] + s[k + 1..]) == multiset(s) - multiset{s[k]}
  {
    assert s == s[..k] + ([s[k]] + s[k + 1..]);
  }

  // One step of any induction over two permutations of each other.
  lemma PermutationStep<T>(a: seq<T>, b: seq<T>) returns (k: nat)
    requires multiset(a) == multiset(b) && a != []
    ensures k < |b| && b[k] == a[0] && multiset(a[1..]) == multiset(b[..k] + b[k + 1..])
  {
    SameElements(a, b);
    assert a[0] in b;
    k :| 0 <= k < |b| && b[k] == a[0];
    TakenOut(b, k);
    HeadAndRest(a);
    assert multiset(a[1..]) == multiset(a) - multiset{a[0]};
  }

  lemma EmptyPermutation<T>(b: seq<T>)
    requires multiset([]) == multiset(b)
    ensures b == []
  {
    SameElements([], b);
  }

  /** Permuting a list permutes its image. */
  lemma {:induction false} MapPermutes<T, U>(a: seq<T>, b: seq<T>, f: T -> U)
    requires multiset(a) == multiset(b)
    ensures multiset(Map(a, f)) == multiset(Map(b, f))
    decreases |a|
  {
    if a == [] {
      EmptyPermutation(b);
    } else {
      var k := PermutationStep(a, b);
      var rest := b[..k] + b[k + 1..];
      MapPermutes(a[1..], rest, f);
      assert multiset(Map(a, f)) == multiset{f(a[0])} + multiset(Map(a[1..], f)) by {
        HeadAndRest(Map(a, f));
        assert Map(a, f)[1..] == Map(a[1..], f);
      }
      assert multiset(Map(b, f)) == multiset{f(a[0])} + multiset(Map(rest, f)) by {
        SplitAt(b, k);
        MapMiddle(b[..k], b[k], b[k + 1..], f);
      }
    }
  }

  lemma SplitAt<T>(b: seq<T>, k: nat)
    requires k < |b|
    ensures b == b[..k] + ([b[k]] + b[k + 1..])
  {
  }

  lemma MapMiddle<T, U>(p: seq<T>, x: T, q: seq<T>, f: T -> U)
    ensures multiset(Map(p + ([x] + q), f)) == multiset{f(x)} + multiset(Map(p + q, f))
  {
    hide Map;
    MapJoin(p, [x] + q, f);
    MapJoin([x], q, f);
    MapJoin(p, q, f);
    assert Map([x], f) == [f(x)];
    Middle(Map(p, f), f(x), Map(q, f));
  }

  lemma Middle<U>(p: seq<U>, y: U, q: seq<U>)
    ensures multiset(p + ([y] + q)) == multiset{y} + multiset(p + q)
  {
  }

  // ----- coverage -----

  predicate Covers(r: Range, i: int) { r.start <= i < r.end }

  /** How many of the ranges cover offset `i`. */
  function Count(rs: seq<Range>, i: int): nat {
    if rs == [] then 0 else (if Covers(rs[0], i) then 1 else 0) + Count(rs[1..], i)
  }

  lemma CountCons(r: Range, rs: seq<Range>, i: int)
    ensures Count([r] + rs, i) == (if Covers(r, i) then 1 else 0) + Count(rs, i)
  {
    assert ([r] + rs)[1..] == rs;
  }

  lemma {:induction false} CountJoin(a: seq<Range>, b: seq<Range>, i: int)
    ensures Count(a + b, i) == Count(a, i) + Count(b, i)
  {
    if a == [] {
      assert a + b == b;
    } else {
      assert (a + b)[1..] == a[1..] + b;
      CountJoin(a[1..], b, i);
    }
  }

  lemma {:induction false} CountPermutes(a: seq<Range>, b: seq<Range>, i: int)
    requires multiset(a) == multiset(b)
    ensures Count(a, i) == Count(b, i)
    decreases |a|
  {
    if a == [] {
      EmptyPermutation(b);
    } else {
      var k := PermutationStep(a, b);
      CountPermutes(a[1..], b[..k] + b[k + 1..], i);
      CountTakenOut(b, k, i);
    }
  }

  lemma CountTakenOut(s: seq<Range>, k: nat, i: int)
    requires k < |s|
    ensures Count(s, i) == (if Covers(s[k], i) then 1 else 0) + Count(s[..k] + s[k + 1..], i)
  {
    var tail := [s[k]] + s[k + 1..];
    assert s == s[..k] + tail && tail[1..] == s[k + 1..];
    CountJoin(s[..k], tail, i);
    CountJoin(s[..k], s[k + 1..], i);
  }

  lemma {:induction false} CountNone(rs: seq<Range>, i: int)
    requires forall r | r in rs :: !Covers(r, i)
    ensures Count(rs, i) == 0
  {
    if rs != [] { CountNone(rs[1..], i); }
  }

  lemma {:induction false} CountSome(rs: seq<Range>, i: int, k: nat)
    requires k < |rs| && Covers(rs[k], i)
    ensures Count(rs, i) >= 1
  {
    if k > 0 { CountSome(rs[1..], i, k - 1); }
  }

  // ----- tilings -----

  predicate InBounds(rs: seq<Range>, len: nat) {
    forall r | r in rs :: r.start <= r.end <= len
  }

  predicate NonEmpty(rs: seq<Range>) {
    forall r | r in rs :: r.start < r.end
  }

  function StartOf(r: Range): int { r.start }

  /** Non-empty ranges, end to start, from `at` to `len` without a gap. */
  predicate TilesFrom(rs: seq<Range>, at: nat, len: nat) {
    if rs == [] then at == len
    else rs[0].start == at && at < rs[0].end && TilesFrom(rs[1..], rs[0].end, len)
  }

  /** In offset order the ranges tile `[0, len)`. */
  predicate Tiles(rs: seq<Range>, len: nat) { TilesFrom(SortBy(rs, StartOf), 0, len) }

  /** Every offset below `len` is in exactly one of the ranges. */
  ghost predicate Partitions(rs: seq<Range>, len: nat) {
    forall i | 0 <= i < len :: Count(rs, i) == 1
  }

  lemma {:induction false} AscendingPartitionTiles(rs: seq<Range>, at: nat, len: nat)
    requires Ascending(rs, StartOf) && InBounds(rs, len) && NonEmpty(rs) && at <= len
    requires forall r | r in rs :: at <= r.start
    requires forall i | at <= i < len :: Count(rs, i) == 1
    ensures TilesFrom(rs, at, len)
    decreases |rs|
  {
    if rs == [] {
      CountNone(rs, at);
    } else {
      var first, rest := rs[0], rs[1..];
      HeadAndRest(rs);
      assert first in rs;
      forall r | r in rest ensures r in rs && first.start <= r.start { AscendingHead(rs, r); }
      if first.start > at { CountNone(rs, at); }
      if rest != [] {
        var x := rest[0].start;
        assert rest[0] in rest;
        CountSome(rest, x, 0);
        assert Count(rs, x) == (if Covers(first, x) then 1 else 0) + Count(rest, x);
      }
      forall r | r in rest ensures first.end <= r.start { if r != rest[0] { AscendingHead(rest, r); } }
      forall i | first.end <= i < len ensures Count(rest, i) == 1 { assert Count(rs, i) == 1; }
      AscendingPartitionTiles(rest, first.end, len);
    }
  }

  lemma AscendingHead(rs: seq<Range>, r: Range)
    requires Ascending(rs, StartOf) && rs != [] && r in rs[1..]
    ensures r in rs && rs[0].start <= r.start
    ensures Ascending(rs[1..], StartOf)
  {
    var k :| 0 <= k < |rs| - 1 && rs[1..][k] == r;
    assert rs[k + 1] == r && StartOf(rs[0]) <= StartOf(rs[k + 1]);
  }

  /** Non-empty ranges that put every offset in exactly one of them tile, in
      whatever order they are listed. */
  lemma PartitionTiles(rs: seq<Range>, len: nat)
    requires InBounds(rs, len) && NonEmpty(rs) && Partitions(rs, len)
    ensures Tiles(rs, len)
  {
    var sorted := SortBy(rs, StartOf);
    SortByIsSorted(rs, StartOf);
    forall r | r in sorted ensures r in rs { assert r in multiset(sorted); }
    forall i | 0 <= i < len ensures Count(sorted, i) == 1 { CountPermutes(sorted, rs, i); }
    AscendingPartitionTiles(sorted, 0, len);
  }

  lemma {:induction false} TilingIsShort(rs: seq<Range>, at: nat, len: nat)
    requires TilesFrom(rs, at, len)
    ensures at + |rs| <= len
  {
    if rs != [] { TilingIsShort(rs[1..], rs[0].end, len); }
  }

  /** The slices of the ranges, joined in the order listed. */
  function Pieces(data: bytes, rs: seq<Range>): bytes
    requires InBounds(rs, |data|)
  {
    if rs == [] then [] else Slice(data, rs[0]) + Pieces(data, rs[1..])
  }

  /** A tiling rebuilds what it tiles. */
  lemma {:induction false} TilingRebuilds(data: bytes, rs: seq<Range>, at: nat)
    requires at <= |data| && InBounds(rs, |data|) && TilesFrom(rs, at, |data|)
    ensures Pieces(data, rs) == data[at..]
  {
    if rs != [] {
      TilingRebuilds(data, rs[1..], rs[0].end);
      assert data[at..] == data[at..rs[0].end] + data[rs[0].end..];
    }
  }
}
