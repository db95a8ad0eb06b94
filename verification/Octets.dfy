/** Byte strings, and the one search every scanner of the repository is built on:
    the first window of the haystack that equals the needle. */
module Octets {
  import opened Wrappers

  type byte = x: int | 0 <= x < 256
  type bytes = seq<byte>

  const TAB: byte := 9
  const LF: byte := 10
  const CR: byte := 13
  const SPACE: byte := 32
  const QUOTE: byte := 34
  const COMMA: byte := 44
  const COLON: byte := 58
  const OPEN_BRACKET: byte := 91
  const CLOSE_BRACKET: byte := 93
  const OPEN_BRACE: byte := 123
  const CLOSE_BRACE: byte := 125
  const CRLF: bytes := [CR, LF]

  /** Offsets into a byte string, `end` exclusive. */
  datatype Range = Range(start: nat, end: nat)

  predicate Fits(r: Range, s: bytes) { r.start <= r.end <= |s| }

  function Slice(s: bytes, r: Range): bytes
    requires Fits(r, s)
  {
    s[r.start..r.end]
  }

  function Shift(r: Range, base: nat): Range { Range(r.start + base, r.end + base) }

  predicate IsDigit(b: byte) { 48 <= b <= 57 }

  predicate IsLetter(b: byte) { 65 <= b <= 90 || 97 <= b <= 122 }

  const CAPITALS: string := "ABCDEFGHIJKLMNOPQRSTUVWXYZ"
  const SMALLS: string := "abcdefghijklmnopqrstuvwxyz"
  const DIGITS: string := "0123456789"

  // The letters and the digits by name.
  lemma AsciiOrder()
    ensures forall v | 0 <= v < 26 :: CAPITALS[v] as int == 65 + v
    ensures forall v | 0 <= v < 26 :: SMALLS[v] as int == 97 + v
    ensures forall v | 0 <= v < 10 :: DIGITS[v] as int == 48 + v
  {
  }

  predicate IsHexDigit(b: byte) { IsDigit(b) || 65 <= b <= 70 || 97 <= b <= 102 }

  /** The value of a hexadecimal digit, of either case. */
  function HexValue(b: byte): (v: nat)
    requires IsHexDigit(b)
    ensures v < 16
  {
    if b <= 57 then b - 48 else if b <= 70 then b - 55 else b - 87
  }

  // The four bytes section 2 of RFC 8259 calls whitespace.
  predicate IsWs(b: byte) { b == SPACE || b == TAB || b == LF || b == CR }

  predicate Without(s: bytes, b: byte) { forall i | 0 <= i < |s| :: s[i] != b }

  /** `n` bytes of `a` from `i` are the `n` bytes of `b` from `j`. */
  predicate Agree(a: bytes, i: nat, b: bytes, j: nat, n: nat) {
    i + n <= |a| && j + n <= |b| && forall x | i <= x < i + n :: a[x] == b[x - i + j]
  }

  /** The window of `haystack` at `i` is the needle. */
  predicate OccursAt(haystack: bytes, needle: bytes, i: nat) {
    Agree(haystack, i, needle, 0, |needle|)
  }

  /** The first occurrence of `needle` at or after `from`. */
  function FindFrom(haystack: bytes, needle: bytes, from: nat): (r: Option<nat>)
    requires needle != []
    ensures r.None? ==> forall i: nat | from <= i :: !OccursAt(haystack, needle, i)
    ensures r.Some? ==> from <= r.value && OccursAt(haystack, needle, r.value)
    ensures r.Some? ==> forall i: nat | from <= i < r.value :: !OccursAt(haystack, needle, i)
    decreases |haystack| - from
  {
    if from >= |haystack| then None
    else if OccursAt(haystack, needle, from) then Some(from)
    else FindFrom(haystack, needle, from + 1)
  }

  // A search is settled by exhibiting the occurrence and the absence of an earlier one.
  lemma FindFromIs(haystack: bytes, needle: bytes, from: nat, at: nat)
    requires needle != [] && from <= at && OccursAt(haystack, needle, at)
    requires forall i: nat | from <= i < at :: !OccursAt(haystack, needle, i)
    ensures FindFrom(haystack, needle, from) == Some(at)
  {
    var r := FindFrom(haystack, needle, from);
    assert r.Some?;
  }

  lemma AgreeIsSliceEquality(a: bytes, i: nat, b: bytes, j: nat, n: nat)
    requires i + n <= |a| && j + n <= |b|
    ensures Agree(a, i, b, j, n) <==> a[i..i + n] == b[j..j + n]
  {
    if a[i..i + n] == b[j..j + n] {
      forall x | i <= x < i + n ensures a[x] == b[x - i + j] {
        assert a[x] == a[i..i + n][x - i];
        assert b[x - i + j] == b[j..j + n][x - i];
      }
    }
  }

  lemma AgreeSymmetric(a: bytes, i: nat, b: bytes, j: nat, n: nat)
    requires Agree(a, i, b, j, n)
    ensures Agree(b, j, a, i, n)
  {
    forall x | j <= x < j + n ensures b[x] == a[x - j + i] {
      assert a[x - j + i] == b[x - j + i - i + j];
    }
  }

  // Agreement narrows to any part of the window.
  lemma AgreePart(a: bytes, i: nat, b: bytes, j: nat, n: nat, skip: nat, m: nat)
    requires Agree(a, i, b, j, n) && skip + m <= n
    ensures Agree(a, i + skip, b, j + skip, m)
  {
  }

  lemma OccursTransfer(a: bytes, i: nat, b: bytes, j: nat, needle: bytes)
    requires OccursAt(a, needle, i) && Agree(b, j, a, i, |needle|)
    ensures OccursAt(b, needle, j)
  {
  }

  /** The first position at or after `from` holding `b`. */
  function FindByte(s: bytes, b: byte, from: nat): (r: Option<nat>)
    ensures r.None? ==> forall i | from <= i < |s| :: s[i] != b
    ensures r.Some? ==> from <= r.value < |s| && s[r.value] == b
    ensures r.Some? ==> forall i | from <= i < r.value :: s[i] != b
    decreases |s| - from
  {
    if from >= |s| then None
    else if s[from] == b then Some(from)
    else FindByte(s, b, from + 1)
  }

  lemma FindByteIs(s: bytes, b: byte, from: nat, at: nat)
    requires from <= at < |s| && s[at] == b
    requires forall i | from <= i < at :: s[i] != b
    ensures FindByte(s, b, from) == Some(at)
    decreases at - from
  {
    if from < at { FindByteIs(s, b, from + 1, at); }
  }
}
