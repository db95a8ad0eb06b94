/** The attested-data record, and the signed preimage it is laid out as:
    big-endian, fixed-width, every count eight bytes. */
module Record {
  import opened Wrappers
  import opened Octets

  const U32_LIMIT: nat := 0x1_0000_0000
  const U64_LIMIT: nat := 0x1_0000_0000_0000_0000

  type u32 = x: int | 0 <= x < U32_LIMIT
  type u64 = x: int | 0 <= x < U64_LIMIT
  type bytes32 = s: bytes | |s| == 32 witness seq(32, _ => 0)

  datatype RevealedRange = RevealedRange(start: u32, data: bytes)

  datatype RangeCommitment = RangeCommitment(start: u32, end: u32, commitment: bytes32)

  datatype DirectionBlock = DirectionBlock(revealed: seq<RevealedRange>, commitments: seq<RangeCommitment>)

  datatype AttestedData = AttestedData(
    authorityId: bytes32,
    createdAt: u64,
    sentTranscriptLength: u32,
    recvTranscriptLength: u32,
    sent: DirectionBlock,
    received: DirectionBlock)

  const HEADER_LEN: nat := 32 + 8 + 4 + 4

  // ----- fixed-width integers -----

  function Pow256(width: nat): (p: nat)
    ensures p > 0
  {
    if width == 0 then 1 else 256 * Pow256(width - 1)
  }

  function EncodeUint(n: nat, width: nat): (s: bytes)
    ensures |s| == width
  {
    if width == 0 then [] else EncodeUint(n / 256, width - 1) + [n % 256]
  }

  function DecodeUint(s: bytes): nat {
    if s == [] then 0 else 256 * DecodeUint(s[..|s| - 1]) + s[|s| - 1]
  }

  lemma {:induction false} UintRoundTrip(n: nat, width: nat)
    requires n < Pow256(width)
    ensures DecodeUint(EncodeUint(n, width)) == n
  {
    if width > 0 {
      UintRoundTrip(n / 256, width - 1);
      var s := EncodeUint(n, width);
      assert s[..|s| - 1] == EncodeUint(n / 256, width - 1);
    }
  }

  lemma {:induction false} UintReadBack(s: bytes)
    ensures DecodeUint(s) < Pow256(|s|) && EncodeUint(DecodeUint(s), |s|) == s
  {
    if s != [] {
      var front, b := s[..|s| - 1], s[|s| - 1];
      UintReadBack(front);
      assert s == front + [b];
      assert DecodeUint(s) / 256 == DecodeUint(front) && DecodeUint(s) % 256 == b;
    }
  }

  lemma Widths()
    ensures Pow256(4) == U32_LIMIT && Pow256(8) == U64_LIMIT
  {
    assert Pow256(2) == 0x1_0000;
    assert Pow256(4) == 0x1_0000 * 0x1_0000;
    assert Pow256(6) == 0x1_0000 * Pow256(4);
  }

  /** `n` shifted right by that many bytes. */
  function ShiftRight(n: nat, places: nat): nat {
    if places == 0 then n else ShiftRight(n / 256, places - 1)
  }

  /** Big-endian: a byte is what is left of the number shifted by the bytes after it. */
  lemma {:induction false} BigEndian(n: nat, width: nat, i: nat)
    requires i < width
    ensures EncodeUint(n, width)[i] == ShiftRight(n, width - 1 - i) % 256
  {
    if i < width - 1 { BigEndian(n / 256, width - 1, i); }
  }

  // ----- the encoder -----

  /** Every count fits its eight bytes, as on any machine whose lengths do. */
  predicate Encodable(d: AttestedData) { EncodableBlock(d.sent) && EncodableBlock(d.received) }

  predicate EncodableBlock(b: DirectionBlock) {
    && |b.revealed| < U64_LIMIT && |b.commitments| < U64_LIMIT
    && forall i | 0 <= i < |b.revealed| :: |b.revealed[i].data| < U64_LIMIT
  }

  function EncodeRevealed(r: RevealedRange): bytes {
    EncodeUint(r.start, 4) + EncodeUint(|r.data|, 8) + r.data
  }

  function EncodeCommitment(c: RangeCommitment): bytes {
    EncodeUint(c.start, 4) + EncodeUint(c.end, 4) + c.commitment
  }

  function EncodeRevealedItems(rs: seq<RevealedRange>): bytes {
    if rs == [] then [] else EncodeRevealed(rs[0]) + EncodeRevealedItems(rs[1..])
  }

  function EncodeCommitmentItems(cs: seq<RangeCommitment>): bytes {
    if cs == [] then [] else EncodeCommitment(cs[0]) + EncodeCommitmentItems(cs[1..])
  }

  function EncodeBlock(b: DirectionBlock): bytes {
    EncodeUint(|b.revealed|, 8) + EncodeRevealedItems(b.revealed)
    + EncodeUint(|b.commitments|, 8) + EncodeCommitmentItems(b.commitments)
  }

  /** `AttestedData::encode`: the fields in declaration order. */
  function Encode(d: AttestedData): bytes {
    d.authorityId + EncodeUint(d.createdAt, 8) + EncodeUint(d.sentTranscriptLength, 4)
    + EncodeUint(d.recvTranscriptLength, 4) + EncodeBlock(d.sent) + EncodeBlock(d.received)
  }

  // ----- a decoder in one forward pass -----

  /** What was read off the front, and what is left. */
  type Read<T> = Option<(T, bytes)>

  function TakeBytes(s: bytes, n: nat): Read<bytes> {
    if |s| < n then None else Some((s[..n], s[n..]))
  }

  function TakeUint(s: bytes, width: nat): (r: Read<nat>)
    ensures r.Some? ==> |r.value.1| + width == |s|
  {
    if |s| < width then None else Some((DecodeUint(s[..width]), s[width..]))
  }

  function TakeU32(s: bytes): (r: Read<u32>)
    ensures r.Some? ==> |r.value.1| + 4 == |s|
  {
    match TakeUint(s, 4)
    case Some((n, rest)) => if n < U32_LIMIT then Some((n, rest)) else None
    case None => None
  }

  function TakeRevealed(s: bytes): Read<RevealedRange> {
    match TakeU32(s)
    case None => None
    case Some((start, s1)) =>
      match TakeUint(s1, 8)
      case None => None
      case Some((n, s2)) =>
        match TakeBytes(s2, n)
        case None => None
        case Some((data, rest)) => Some((RevealedRange(start, data), rest))
  }

  function TakeCommitment(s: bytes): Read<RangeCommitment> {
    match TakeU32(s)
    case None => None
    case Some((start, s1)) =>
      match TakeU32(s1)
      case None => None
      case Some((end, s2)) =>
        match TakeBytes(s2, 32)
        case None => None
        case Some((value, rest)) => Some((RangeCommitment(start, end, value), rest))
  }

  function TakeRevealedItems(s: bytes, n: nat): Read<seq<RevealedRange>> {
    if n == 0 then Some(([], s))
    else
      match TakeRevealed(s)
      case None => None
      case Some((r, s1)) =>
        match TakeRevealedItems(s1, n - 1)
        case None => None
        case Some((rs, rest)) => Some(([r] + rs, rest))
  }

  function TakeCommitmentItems(s: bytes, n: nat): Read<seq<RangeCommitment>> {
    if n == 0 then Some(([], s))
    else
      match TakeCommitment(s)
      case None => None
      case Some((c, s1)) =>
        match TakeCommitmentItems(s1, n - 1)
        case None => None
        case Some((cs, rest)) => Some(([c] + cs, rest))
  }

  function TakeBlock(s: bytes): Read<DirectionBlock> {
    match TakeUint(s, 8)
    case None => None
    case Some((n, s1)) =>
      match TakeRevealedItems(s1, n)
      case None => None
      case Some((revealed, s2)) =>
        match TakeUint(s2, 8)
        case None => None
        case Some((m, s3)) =>
          match TakeCommitmentItems(s3, m)
          case None => None
          case Some((commitments, rest)) => Some((DirectionBlock(revealed, commitments), rest))
  }

  function TakeHeader(s: bytes): Read<(bytes32, u64, u32, u32)> {
    match TakeBytes(s, 32)
    case None => None
    case Some((authorityId, s1)) =>
      match TakeUint(s1, 8)
      case None => None
      case Some((createdAt, s2)) =>
        match TakeU32(s2)
        case None => None
        case Some((sent, s3)) =>
          match TakeU32(s3)
          case None => None
          case Some((recv, rest)) => if createdAt < U64_LIMIT then Some(((authorityId, createdAt, sent, recv), rest)) else None
  }

  function Decode(s: bytes): Read<AttestedData> {
    match TakeHeader(s)
    case None => None
    case Some((h, s1)) =>
      match TakeBlock(s1)
      case None => None
      case Some((sent, s2)) =>
        match TakeBlock(s2)
        case None => None
        case Some((received, rest)) => Some((AttestedData(h.0, h.1, h.2, h.3, sent, received), rest))
  }

  // ----- encoding, then decoding -----

  lemma UintTaken(n: nat, width: nat, rest: bytes)
    requires n < Pow256(width)
    ensures TakeUint(EncodeUint(n, width) + rest, width) == Some((n, rest))
  {
    var s := EncodeUint(n, width) + rest;
    assert s[..width] == EncodeUint(n, width) && s[width..] == rest;
    UintRoundTrip(n, width);
  }

  lemma BytesTaken(data: bytes, rest: bytes)
    ensures TakeBytes(data + rest, |data|) == Some((data, rest))
  {
    assert (data + rest)[..|data|] == data && (data + rest)[|data|..] == rest;
  }

  lemma RevealedTaken(r: RevealedRange, rest: bytes)
    requires |r.data| < U64_LIMIT
    ensures TakeRevealed(EncodeRevealed(r) + rest) == Some((r, rest))
  {
    hide EncodeUint, Pow256, TakeUint, TakeBytes;
    Widths();
    var s2 := r.data + rest;
    var s1 := EncodeUint(|r.data|, 8) + s2;
    assert EncodeRevealed(r) + rest == EncodeUint(r.start, 4) + s1;
    UintTaken(r.start, 4, s1);
    UintTaken(|r.data|, 8, s2);
    BytesTaken(r.data, rest);
  }

  lemma CommitmentTaken(c: RangeCommitment, rest: bytes)
    ensures TakeCommitment(EncodeCommitment(c) + rest) == Some((c, rest))
  {
    hide EncodeUint, Pow256, TakeUint, TakeBytes;
    Widths();
    var s2 := c.commitment + rest;
    var s1 := EncodeUint(c.end, 4) + s2;
    assert EncodeCommitment(c) + rest == EncodeUint(c.start, 4) + s1;
    UintTaken(c.start, 4, s1);
    UintTaken(c.end, 4, s2);
    BytesTaken(c.commitment, rest);
  }

  lemma {:induction false} RevealedItemsTaken(rs: seq<RevealedRange>, rest: bytes)
    requires forall i | 0 <= i < |rs| :: |rs[i].data| < U64_LIMIT
    ensures TakeRevealedItems(EncodeRevealedItems(rs) + rest, |rs|) == Some((rs, rest))
  {
    hide TakeRevealed, EncodeRevealed;
    if rs == [] {
      assert EncodeRevealedItems(rs) + rest == rest;
    } else {
      var more := EncodeRevealedItems(rs[1..]) + rest;
      assert EncodeRevealedItems(rs) + rest == EncodeRevealed(rs[0]) + more;
      RevealedTaken(rs[0], more);
      RevealedItemsTaken(rs[1..], rest);
      assert rs == [rs[0]] + rs[1..];
    }
  }

  lemma {:induction false} CommitmentItemsTaken(cs: seq<RangeCommitment>, rest: bytes)
    ensures TakeCommitmentItems(EncodeCommitmentItems(cs) + rest, |cs|) == Some((cs, rest))
  {
    hide TakeCommitment, EncodeCommitment;
    if cs == [] {
      assert EncodeCommitmentItems(cs) + rest == rest;
    } else {
      var more := EncodeCommitmentItems(cs[1..]) + rest;
      assert EncodeCommitmentItems(cs) + rest == EncodeCommitment(cs[0]) + more;
      CommitmentTaken(cs[0], more);
      CommitmentItemsTaken(cs[1..], rest);
      assert cs == [cs[0]] + cs[1..];
    }
  }

  lemma BlockTaken(b: DirectionBlock, rest: bytes)
    requires EncodableBlock(b)
    ensures TakeBlock(EncodeBlock(b) + rest) == Some((b, rest))
  {
    hide EncodeUint, Pow256, TakeUint, EncodeRevealedItems, EncodeCommitmentItems, TakeRevealedItems,
      TakeCommitmentItems;
    Widths();
    var s3 := EncodeCommitmentItems(b.commitments) + rest;
    var s2 := EncodeUint(|b.commitments|, 8) + s3;
    var s1 := EncodeRevealedItems(b.revealed) + s2;
    assert EncodeBlock(b) + rest == EncodeUint(|b.revealed|, 8) + s1;
    UintTaken(|b.revealed|, 8, s1);
    RevealedItemsTaken(b.revealed, s2);
    UintTaken(|b.commitments|, 8, s3);
    CommitmentItemsTaken(b.commitments, rest);
  }

  lemma HeaderTaken(d: AttestedData, rest: bytes)
    ensures TakeHeader(d.authorityId + EncodeUint(d.createdAt, 8) + EncodeUint(d.sentTranscriptLength, 4)
                       + EncodeUint(d.recvTranscriptLength, 4) + rest) ==
            Some(((d.authorityId, d.createdAt, d.sentTranscriptLength, d.recvTranscriptLength), rest))
  {
    hide EncodeUint, Pow256, TakeUint, TakeBytes;
    Widths();
    var s3 := EncodeUint(d.recvTranscriptLength, 4) + rest;
    var s2 := EncodeUint(d.sentTranscriptLength, 4) + s3;
    var s1 := EncodeUint(d.createdAt, 8) + s2;
    assert d.authorityId + EncodeUint(d.createdAt, 8) + EncodeUint(d.sentTranscriptLength, 4)
           + EncodeUint(d.recvTranscriptLength, 4) + rest == d.authorityId + s1;
    BytesTaken(d.authorityId, s1);
    UintTaken(d.createdAt, 8, s2);
    UintTaken(d.sentTranscriptLength, 4, s3);
    UintTaken(d.recvTranscriptLength, 4, rest);
  }

  /** One forward pass reads back any record, and leaves exactly what follows it. */
  lemma DecodesBack(d: AttestedData, tail: bytes)
    requires Encodable(d)
    ensures Decode(Encode(d) + tail) == Some((d, tail))
  {
    hide EncodeUint, TakeHeader, TakeBlock, EncodeBlock, EncodableBlock;
    var s2 := EncodeBlock(d.received) + tail;
    var s1 := EncodeBlock(d.sent) + s2;
    assert Encode(d) + tail ==
           d.authorityId + EncodeUint(d.createdAt, 8) + EncodeUint(d.sentTranscriptLength, 4)
           + EncodeUint(d.recvTranscriptLength, 4) + s1;
    HeaderTaken(d, s1);
    BlockTaken(d.sent, s2);
    BlockTaken(d.received, tail);
  }

  /** No two records share a preimage, and no preimage begins another: a boundary
      cannot be shifted from one range into the next. */
  lemma EncodingIsPrefixFree(d: AttestedData, t: bytes, e: AttestedData, u: bytes)
    requires Encodable(d) && Encodable(e) && Encode(d) + t == Encode(e) + u
    ensures d == e && t == u
  {
    hide Encode, Decode, Encodable;
    DecodesBack(d, t);
    DecodesBack(e, u);
  }

  // ----- decoding, then encoding -----

  lemma TakenUint(s: bytes, width: nat)
    requires TakeUint(s, width).Some?
    ensures var (n, rest) := TakeUint(s, width).value; n < Pow256(width) && s == EncodeUint(n, width) + rest
  {
    UintReadBack(s[..width]);
    assert s == s[..width] + s[width..];
  }

  lemma TakenRevealed(s: bytes)
    requires TakeRevealed(s).Some?
    ensures var (r, rest) := TakeRevealed(s).value; |r.data| < U64_LIMIT && s == EncodeRevealed(r) + rest
  {
    hide EncodeUint, Pow256, TakeUint;
    Widths();
    TakenUint(s, 4);
    var s1 := TakeU32(s).value.1;
    TakenUint(s1, 8);
    var s2 := TakeUint(s1, 8).value.1;
    var n := TakeUint(s1, 8).value.0;
    assert s2 == s2[..n] + s2[n..];
  }

  lemma TakenCommitment(s: bytes)
    requires TakeCommitment(s).Some?
    ensures var (c, rest) := TakeCommitment(s).value; s == EncodeCommitment(c) + rest
  {
    hide EncodeUint, Pow256, TakeUint;
    TakenUint(s, 4);
    var s1 := TakeU32(s).value.1;
    TakenUint(s1, 4);
    var s2 := TakeU32(s1).value.1;
    assert s2 == s2[..32] + s2[32..];
  }

  lemma {:induction false} TakenRevealedItems(s: bytes, n: nat)
    requires TakeRevealedItems(s, n).Some?
    ensures var (rs, rest) := TakeRevealedItems(s, n).value;
            && |rs| == n && (forall i | 0 <= i < n :: |rs[i].data| < U64_LIMIT)
            && s == EncodeRevealedItems(rs) + rest
    decreases n
  {
    hide TakeRevealed, EncodeRevealed;
    if n == 0 {
      assert s == EncodeRevealedItems([]) + s;
    } else {
      var (r, s1) := TakeRevealed(s).value;
      var (rs, rest) := TakeRevealedItems(s1, n - 1).value;
      TakenRevealed(s);
      TakenRevealedItems(s1, n - 1);
      assert ([r] + rs)[1..] == rs;
      assert s == EncodeRevealed(r) + EncodeRevealedItems(rs) + rest;
    }
  }

  lemma {:induction false} TakenCommitmentItems(s: bytes, n: nat)
    requires TakeCommitmentItems(s, n).Some?
    ensures var (cs, rest) := TakeCommitmentItems(s, n).value; |cs| == n && s == EncodeCommitmentItems(cs) + rest
    decreases n
  {
    hide TakeCommitment, EncodeCommitment;
    if n == 0 {
      assert s == EncodeCommitmentItems([]) + s;
    } else {
      var (c, s1) := TakeCommitment(s).value;
      var (cs, rest) := TakeCommitmentItems(s1, n - 1).value;
      TakenCommitment(s);
      TakenCommitmentItems(s1, n - 1);
      assert ([c] + cs)[1..] == cs;
      assert s == EncodeCommitment(c) + EncodeCommitmentItems(cs) + rest;
    }
  }

  lemma TakenBlock(s: bytes)
    requires TakeBlock(s).Some?
    ensures var (b, rest) := TakeBlock(s).value; EncodableBlock(b) && s == EncodeBlock(b) + rest
  {
    hide EncodeUint, Pow256, TakeUint, EncodeRevealedItems, EncodeCommitmentItems, TakeRevealedItems,
      TakeCommitmentItems;
    Widths();
    TakenUint(s, 8);
    var (n, s1) := TakeUint(s, 8).value;
    TakenRevealedItems(s1, n);
    var s2 := TakeRevealedItems(s1, n).value.1;
    TakenUint(s2, 8);
    var (m, s3) := TakeUint(s2, 8).value;
    TakenCommitmentItems(s3, m);
  }

  lemma TakenHeader(s: bytes)
    requires TakeHeader(s).Some?
    ensures var (h, rest) := TakeHeader(s).value;
            s == h.0 + EncodeUint(h.1, 8) + EncodeUint(h.2, 4) + EncodeUint(h.3, 4) + rest
  {
    hide EncodeUint, Pow256, TakeUint;
    var s1 := TakeBytes(s, 32).value.1;
    assert s == s[..32] + s1;
    TakenUint(s1, 8);
    var s2 := TakeUint(s1, 8).value.1;
    TakenUint(s2, 4);
    var s3 := TakeU32(s2).value.1;
    TakenUint(s3, 4);
  }

  /** Whatever the decoder accepts is the encoding of what it returns: the layout
      has one spelling per record. */
  lemma DecodedWasEncoded(s: bytes, d: AttestedData, rest: bytes)
    requires Decode(s) == Some((d, rest))
    ensures Encodable(d) && s == Encode(d) + rest
  {
    hide EncodeUint, TakeHeader, TakeBlock, EncodeBlock, EncodableBlock;
    TakenHeader(s);
    var s1 := TakeHeader(s).value.1;
    TakenBlock(s1);
    var s2 := TakeBlock(s1).value.1;
    TakenBlock(s2);
  }

  // ----- length -----

  function RevealedBytes(rs: seq<RevealedRange>): nat {
    if rs == [] then 0 else 4 + 8 + |rs[0].data| + RevealedBytes(rs[1..])
  }

  lemma {:induction false} RevealedItemsLength(rs: seq<RevealedRange>)
    ensures |EncodeRevealedItems(rs)| == RevealedBytes(rs)
  {
    if rs != [] { RevealedItemsLength(rs[1..]); }
  }

  lemma {:induction false} CommitmentItemsLength(cs: seq<RangeCommitment>)
    ensures |EncodeCommitmentItems(cs)| == 40 * |cs|
  {
    if cs != [] { CommitmentItemsLength(cs[1..]); }
  }

  /** The preimage is as long as its own fields imply. */
  lemma EncodedLength(d: AttestedData)
    ensures |Encode(d)| ==
            HEADER_LEN + (8 + RevealedBytes(d.sent.revealed) + 8 + 40 * |d.sent.commitments|)
            + (8 + RevealedBytes(d.received.revealed) + 8 + 40 * |d.received.commitments|)
  {
    RevealedItemsLength(d.sent.revealed);
    CommitmentItemsLength(d.sent.commitments);
    RevealedItemsLength(d.received.revealed);
    CommitmentItemsLength(d.received.commitments);
  }

  /** The fixed part of the preimage, at its offsets: whatever the lists hold, the
      authority, the time and the two lengths are where a reader without a parser
      finds them, and the first count follows. */
  lemma HeaderAtItsOffsets(d: AttestedData)
    ensures var s := Encode(d);
            && |s| >= HEADER_LEN + 8 && s[..32] == d.authorityId && DecodeUint(s[32..40]) == d.createdAt
            && DecodeUint(s[40..44]) == d.sentTranscriptLength && DecodeUint(s[44..48]) == d.recvTranscriptLength
            && s[48..56] == EncodeUint(|d.sent.revealed|, 8)
  {
    hide EncodeUint, DecodeUint, Pow256, EncodeRevealedItems, EncodeCommitmentItems;
    Widths();
    UintRoundTrip(d.createdAt, 8);
    UintRoundTrip(d.sentTranscriptLength, 4);
    UintRoundTrip(d.recvTranscriptLength, 4);
    var rest := EncodeRevealedItems(d.sent.revealed) + EncodeUint(|d.sent.commitments|, 8)
                + EncodeCommitmentItems(d.sent.commitments) + EncodeBlock(d.received);
    Fields(Encode(d), d.authorityId, EncodeUint(d.createdAt, 8), EncodeUint(d.sentTranscriptLength, 4),
           EncodeUint(d.recvTranscriptLength, 4), EncodeUint(|d.sent.revealed|, 8), rest);
  }

  lemma Fields(s: bytes, a: bytes, b: bytes, c: bytes, d: bytes, e: bytes, rest: bytes)
    requires |a| == 32 && |b| == 8 && |c| == 4 && |d| == 4 && |e| == 8
    requires s == a + b + c + d + (e + rest)
    ensures |s| >= 56 && s[..32] == a && s[32..40] == b && s[40..44] == c && s[44..48] == d && s[48..56] == e
  {
  }
}
