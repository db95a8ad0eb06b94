/** The offset map of a chunked body: where each decoded byte sits in the raw one. */
module Offsets {
  import opened Octets
  import opened Chunked

  /** The raw offset of decoded byte `d`. */
  function Image(chunks: seq<Chunk>, d: nat): nat
    requires d < |Joined(chunks)|
  {
    var c := chunks[0];
    if d < |c.data| then |c.digits| + 2 + d
    else |FrameChunk(c)| + Image(chunks[1..], d - |c.data|)
  }

  /** The decoded offset at which the chunk holding byte `d` ends. */
  function ChunkEnd(chunks: seq<Chunk>, d: nat): (end: nat)
    requires d < |Joined(chunks)|
    ensures d < end <= |Joined(chunks)|
  {
    var c := chunks[0];
    if d < |c.data| then |c.data| else |c.data| + ChunkEnd(chunks[1..], d - |c.data|)
  }

  /** The decoded bytes from `start` to `end` were sent in one piece. */
  predicate InOneChunk(chunks: seq<Chunk>, start: nat, end: nat) {
    start < |Joined(chunks)| && start <= end <= ChunkEnd(chunks, start)
  }

  lemma {:induction false} ImageIncreases(chunks: seq<Chunk>, d: nat, e: nat)
    requires d < e < |Joined(chunks)|
    ensures Image(chunks, d) < Image(chunks, e)
  {
    var c := chunks[0];
    if d >= |c.data| {
      ImageIncreases(chunks[1..], d - |c.data|, e - |c.data|);
    }
  }

  lemma {:induction false} ImageAtLeast(chunks: seq<Chunk>, d: nat)
    requires d < |Joined(chunks)|
    ensures Image(chunks, d) > d
  {
    var c := chunks[0];
    if d >= |c.data| { ImageAtLeast(chunks[1..], d - |c.data|); }
  }

  /** Within one chunk the map is a translation, and past its end it has moved further. */
  lemma {:induction false} ImageGap(chunks: seq<Chunk>, a: nat, b: nat)
    requires a <= b < |Joined(chunks)|
    ensures b < ChunkEnd(chunks, a) ==> Image(chunks, b) == Image(chunks, a) + (b - a)
    ensures b >= ChunkEnd(chunks, a) ==> Image(chunks, b) > Image(chunks, a) + (b - a)
  {
    var c := chunks[0];
    if a >= |c.data| {
      ImageGap(chunks[1..], a - |c.data|, b - |c.data|);
    } else if b >= |c.data| {
      ImageAtLeast(chunks[1..], b - |c.data|);
    }
  }

  /** Raw and decoded body, seen from decoded byte `d`, which sits at raw offset
      `p`: they agree to the chunk's end, and there the raw one carries CRLF and
      the first digit of the next size line. */
  ghost predicate Window(raw: bytes, p: nat, decoded: bytes, d: nat, n: nat) {
    && n > 0 && Agree(raw, p, decoded, d, n)
    && p + n + 2 < |raw|
    && raw[p + n] == CR && raw[p + n + 1] == LF && IsHexDigit(raw[p + n + 2])
  }

  lemma {:induction false} WindowAt(chunks: seq<Chunk>, last: bytes, tail: bytes, d: nat)
    requires ValidChunks(chunks) && ValidLast(last) && d < |Joined(chunks)|
    ensures Window(Framed(chunks, last, tail), Image(chunks, d), Joined(chunks), d, ChunkEnd(chunks, d) - d)
  {
    hide HexNumber, FrameChunk, Window;
    var raw, p, n := Framed(chunks, last, tail), Image(chunks, d), ChunkEnd(chunks, d) - d;
    var c, more := chunks[0], chunks[1..];
    if d < |c.data| {
      StartsWithDigit(more, last, tail);
      FirstWindow(c, Framed(more, last, tail), Joined(more), d, raw, p, Joined(chunks), n);
    } else {
      var e := d - |c.data|;
      WindowAt(more, last, tail, e);
      WindowShifts(c, Framed(more, last, tail), Image(more, e), Joined(more), e, raw, p, Joined(chunks), d, n);
    }
  }

  lemma StartsWithDigit(chunks: seq<Chunk>, last: bytes, tail: bytes)
    requires ValidChunks(chunks) && ValidLast(last)
    ensures |Framed(chunks, last, tail)| > 0 && IsHexDigit(Framed(chunks, last, tail)[0])
  {
    if chunks == [] {
      assert Framed(chunks, last, tail)[0] == last[0];
    } else {
      assert ValidChunk(chunks[0]);
      assert Framed(chunks, last, tail)[0] == chunks[0].digits[0];
    }
  }

  lemma FirstWindow(c: Chunk, rest: bytes, more: bytes, d: nat, raw: bytes, p: nat, decoded: bytes, n: nat)
    requires d < |c.data| && rest != [] && IsHexDigit(rest[0])
    requires raw == FrameChunk(c) + rest && p == |c.digits| + 2 + d
    requires decoded == c.data + more && n == |c.data| - d
    ensures Window(raw, p, decoded, d, n)
  {
  }

  lemma WindowShifts(c: Chunk, rest: bytes, q: nat, more: bytes, e: nat,
                     raw: bytes, p: nat, decoded: bytes, d: nat, n: nat)
    requires Window(rest, q, more, e, n)
    requires raw == FrameChunk(c) + rest && p == |FrameChunk(c)| + q
    requires decoded == c.data + more && d == |c.data| + e
    ensures Window(raw, p, decoded, d, n)
  {
  }

  /** What follows a chunk's data from raw offset `s` on: its CRLF, a size line of `k`
      digits, and its CRLF. */
  predicate Seam(raw: bytes, s: nat, k: nat) {
    && k > 0 && s + 4 + k <= |raw| && raw[s] == CR && raw[s + 1] == LF
    && (forall i | s + 2 <= i < s + 2 + k :: IsHexDigit(raw[i]))
    && raw[s + 2 + k] == CR && raw[s + 3 + k] == LF
  }

  /** Past the seam that ends a byte's chunk lies the next decoded byte, if there is one. */
  lemma {:induction false} SeamAt(chunks: seq<Chunk>, last: bytes, tail: bytes, d: nat) returns (k: nat)
    requires ValidChunks(chunks) && ValidLast(last) && d < |Joined(chunks)|
    ensures var s, e := Image(chunks, d) + (ChunkEnd(chunks, d) - d), ChunkEnd(chunks, d);
            Seam(Framed(chunks, last, tail), s, k) && (e < |Joined(chunks)| ==> Image(chunks, e) == s + 4 + k)
  {
    hide HexNumber, FrameChunk, Seam;
    var c, more := chunks[0], chunks[1..];
    var rest := Framed(more, last, tail);
    ChunkLength(c);
    if d < |c.data| {
      k := OpeningLine(more, last, tail);
      FirstSeam(c, rest, k);
    } else {
      k := SeamAt(more, last, tail, d - |c.data|);
      SeamShifts(c, rest, Image(more, d - |c.data|) + (ChunkEnd(chunks, d) - d), k);
    }
  }

  lemma ChunkLength(c: Chunk)
    ensures |FrameChunk(c)| == |c.digits| + |c.data| + 4
  {
  }

  predicate OpensWithLine(rest: bytes, k: nat) {
    && k > 0 && k + 2 <= |rest| && (forall i | 0 <= i < k :: IsHexDigit(rest[i])) && rest[k] == CR && rest[k + 1] == LF
  }

  // A framing opens with a size line, and the first data byte is behind it.
  lemma OpeningLine(chunks: seq<Chunk>, last: bytes, tail: bytes) returns (k: nat)
    requires ValidChunks(chunks) && ValidLast(last)
    ensures OpensWithLine(Framed(chunks, last, tail), k)
    ensures |Joined(chunks)| > 0 ==> Image(chunks, 0) == k + 2
  {
    hide HexNumber;
    if chunks == [] {
      k := |last|;
    } else {
      var c := chunks[0];
      assert ValidChunk(c);
      k := |c.digits|;
      assert Framed(chunks, last, tail) == c.digits + CRLF + (c.data + CRLF + Framed(chunks[1..], last, tail));
    }
  }

  lemma FirstSeam(c: Chunk, rest: bytes, k: nat)
    requires OpensWithLine(rest, k)
    ensures Seam(FrameChunk(c) + rest, |c.digits| + 2 + |c.data|, k)
  {
    var raw, s := FrameChunk(c) + rest, |c.digits| + 2 + |c.data|;
    assert forall i | s + 2 <= i < |raw| :: raw[i] == rest[i - s - 2];
  }

  lemma SeamShifts(c: Chunk, rest: bytes, s: nat, k: nat)
    requires Seam(rest, s, k)
    ensures Seam(FrameChunk(c) + rest, |FrameChunk(c)| + s, k)
  {
    hide FrameChunk;
    var raw, n := FrameChunk(c) + rest, |FrameChunk(c)|;
    assert forall i | n <= i < |raw| :: raw[i] == rest[i - n];
  }

  predicate IsFramingByte(b: byte) { IsHexDigit(b) || b == CR || b == LF }

  /** A raw byte no framing is made of, and that the tail does not hold, is a
      decoded byte: the framing cannot forge a quote. */
  lemma {:induction false} Preimage(chunks: seq<Chunk>, last: bytes, tail: bytes, p: nat) returns (d: nat)
    requires ValidChunks(chunks) && ValidLast(last) && p < |Framed(chunks, last, tail)|
    requires var b := Framed(chunks, last, tail)[p]; !IsFramingByte(b) && Without(tail, b)
    ensures d < |Joined(chunks)| && Image(chunks, d) == p
  {
    if chunks == [] {
      LastLineByte(last, tail, p);
    } else {
      var c, more := chunks[0], chunks[1..];
      var rest := Framed(more, last, tail);
      assert ValidChunk(c);
      if p < |FrameChunk(c)| {
        assert Framed(chunks, last, tail)[p] == FrameChunk(c)[p];
        d := p - |c.digits| - 2;
        DataByte(c, p);
      } else {
        assert Framed(chunks, last, tail)[p] == rest[p - |FrameChunk(c)|];
        d := Preimage(more, last, tail, p - |FrameChunk(c)|);
        d := d + |c.data|;
      }
    }
  }

  lemma DataByte(c: Chunk, p: nat)
    requires ValidChunk(c) && p < |FrameChunk(c)| && !IsFramingByte(FrameChunk(c)[p])
    ensures |c.digits| + 2 <= p < |c.digits| + 2 + |c.data|
  {
  }

  lemma LastLineByte(last: bytes, tail: bytes, p: nat)
    requires ValidLast(last) && p < |last + CRLF + tail|
    ensures IsFramingByte((last + CRLF + tail)[p]) || !Without(tail, (last + CRLF + tail)[p])
  {
    if p >= |last| + 2 {
      assert (last + CRLF + tail)[p] == tail[p - |last| - 2];
    }
  }

  /** Framing only adds: a decoded byte keeps its value under the map. */
  lemma ImageKeepsBytes(chunks: seq<Chunk>, last: bytes, tail: bytes, d: nat)
    requires ValidChunks(chunks) && ValidLast(last) && d < |Joined(chunks)|
    ensures Image(chunks, d) < |Framed(chunks, last, tail)|
    ensures Framed(chunks, last, tail)[Image(chunks, d)] == Joined(chunks)[d]
  {
    WindowAt(chunks, last, tail, d);
  }
}
