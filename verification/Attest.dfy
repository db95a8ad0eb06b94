/** From what a notary observed to the record it signs. */
module Attest {
  import opened Wrappers
  import opened Octets
  import opened Ranges
  import opened Record
  import opened Response

  // ----- what a session produced -----

  /** The normal form of a set of offsets: non-empty ranges, ascending, none touching the next. */
  predicate Normal(rs: seq<Range>) {
    && NonEmpty(rs)
    && forall i | 0 <= i < |rs| - 1 :: rs[i].end < rs[i + 1].start
  }

  type RangeSet = rs: seq<Range> | Normal(rs) witness []

  datatype Direction = Sent | Received

  datatype HashAlgId = Sha256 | OtherAlg(id: nat)

  datatype TypedHash = TypedHash(alg: HashAlgId, value: bytes)

  /** A commitment as the session hands it over; kinds unknown here are passed over. */
  datatype TranscriptCommitment = Hash(direction: Direction, idx: RangeSet, hash: TypedHash) | OtherKind

  /** One direction of the transcript, its revealed ranges opened. */
  datatype PartialDirection = PartialDirection(data: bytes, authed: RangeSet)

  datatype ObservedSession = ObservedSession(
    sent: PartialDirection,
    received: PartialDirection,
    authority: bytes,
    commitments: seq<TranscriptCommitment>,
    createdAt: u64)

  /** The revealed ranges lie in the direction they open. */
  predicate ValidDirection(d: PartialDirection) { InBounds(d.authed, |d.data|) }

  predicate ValidSession(s: ObservedSession) { ValidDirection(s.sent) && ValidDirection(s.received) }

  function Side(s: ObservedSession, direction: Direction): PartialDirection {
    if direction == Sent then s.sent else s.received
  }

  datatype AttestError =
    | WrongCommitmentAlgorithm(alg: HashAlgId)
    | DisjointCommitment(ranges: nat)
    | BadCommitmentLength(length: nat)
    | OffsetTooLarge(offset: nat)

  // ----- one direction -----

  function U32Of(value: nat): Result<u32, AttestError> {
    if value < U32_LIMIT then Ok(value) else Err(OffsetTooLarge(value))
  }

  function ReadRange(range: Range, data: bytes): Result<RevealedRange, AttestError>
    requires Fits(range, data)
  {
    match U32Of(range.end)
    case Err(e) => Err(e)
    case Ok(_) =>
      match U32Of(range.start)
      case Err(e) => Err(e)
      case Ok(start) => Ok(RevealedRange(start, Slice(data, range)))
  }

  function ReadRevealed(ranges: seq<Range>, data: bytes): Result<seq<RevealedRange>, AttestError>
    requires InBounds(ranges, |data|)
  {
    if ranges == [] then Ok([])
    else
      match ReadRange(ranges[0], data)
      case Err(e) => Err(e)
      case Ok(r) =>
        match ReadRevealed(ranges[1..], data)
        case Err(e) => Err(e)
        case Ok(rs) => Ok([r] + rs)
  }

  /** The format's entry for one hash commitment, or why it has none. */
  function ReadHash(idx: RangeSet, hash: TypedHash): Result<RangeCommitment, AttestError> {
    if hash.alg != Sha256 then Err(WrongCommitmentAlgorithm(hash.alg))
    else if |idx| != 1 then Err(DisjointCommitment(|idx|))
    else if |hash.value| != 32 then Err(BadCommitmentLength(|hash.value|))
    else
      match U32Of(idx[0].start)
      case Err(e) => Err(e)
      case Ok(start) =>
        match U32Of(idx[0].end)
        case Err(e) => Err(e)
        case Ok(end) => Ok(RangeCommitment(start, end, hash.value))
  }

  function ReadCommitments(cs: seq<TranscriptCommitment>, direction: Direction): Result<seq<RangeCommitment>, AttestError> {
    if cs == [] then Ok([])
    else if cs[0].OtherKind? || cs[0].direction != direction then ReadCommitments(cs[1..], direction)
    else
      match ReadHash(cs[0].idx, cs[0].hash)
      case Err(e) => Err(e)
      case Ok(c) =>
        match ReadCommitments(cs[1..], direction)
        case Err(e) => Err(e)
        case Ok(out) => Ok([c] + out)
  }

  function CommitmentStart(c: RangeCommitment): int { c.start }

  /** `DirectionBlock::from_observed`. */
  function BlockFromObserved(s: ObservedSession, direction: Direction): Result<DirectionBlock, AttestError>
    requires ValidSession(s)
  {
    match ReadRevealed(Side(s, direction).authed, Side(s, direction).data)
    case Err(e) => Err(e)
    case Ok(revealed) =>
      match ReadCommitments(s.commitments, direction)
      case Err(e) => Err(e)
      case Ok(out) => Ok(DirectionBlock(revealed, SortBy(out, CommitmentStart)))
  }

  // What a loop returns that has read `front` and has `rest` still to read.
  function After<T>(front: seq<T>, rest: Result<seq<T>, AttestError>): Result<seq<T>, AttestError> {
    match rest
    case Err(e) => Err(e)
    case Ok(more) => Ok(front + more)
  }

  lemma AfterNothing<T>(r: Result<seq<T>, AttestError>)
    ensures After([], r) == r
  {
    if r.Ok? { assert [] + r.value == r.value; }
  }

  lemma AfterOne<T>(front: seq<T>, x: T, r: Result<seq<T>, AttestError>)
    ensures After(front, After([x], r)) == After(front + [x], r)
  {
    if r.Ok? { assert front + ([x] + r.value) == front + [x] + r.value; }
  }

  method DirectionFromObserved(s: ObservedSession, direction: Direction) returns (r: Result<DirectionBlock, AttestError>)
    requires ValidSession(s)
    ensures r == BlockFromObserved(s, direction)
  {
    hide ReadRange, ReadHash, SortBy, InBounds, Normal;
    var authed, data := Side(s, direction).authed, Side(s, direction).data;
    var revealed := ReadAuthed(authed, data);
    match revealed {
      case Err(e) => return Err(e);
      case Ok(ranges) =>
        var out: seq<RangeCommitment> := [];
        var i := 0;
        AfterNothing(ReadCommitments(s.commitments, direction));
        assert s.commitments[0..] == s.commitments;
        while i < |s.commitments|
          invariant i <= |s.commitments|
          invariant ReadCommitments(s.commitments, direction) == After(out, ReadCommitments(s.commitments[i..], direction))
        {
          var c := s.commitments[i];
          ghost var rest := s.commitments[i..];
          assert rest[0] == c && rest[1..] == s.commitments[i + 1..];
          i := i + 1;
          if c.OtherKind? || c.direction != direction {
            continue;
          }
          var read := ReadHash(c.idx, c.hash);
          if read.Err? {
            return Err(read.error);
          }
          AfterOne(out, read.value, ReadCommitments(s.commitments[i..], direction));
          out := out + [read.value];
        }
        assert s.commitments[i..] == [];
        assert out + [] == out;
        return Ok(DirectionBlock(ranges, SortBy(out, CommitmentStart)));
    }
  }

  method ReadAuthed(authed: seq<Range>, data: bytes) returns (r: Result<seq<RevealedRange>, AttestError>)
    requires InBounds(authed, |data|)
    ensures r == ReadRevealed(authed, data)
  {
    hide ReadRange;
    var revealed: seq<RevealedRange> := [];
    var i := 0;
    AfterNothing(ReadRevealed(authed, data));
    assert authed[0..] == authed;
    while i < |authed|
      invariant i <= |authed|
      invariant ReadRevealed(authed, data) == After(revealed, ReadRevealed(authed[i..], data))
    {
      ghost var rest := authed[i..];
      assert rest[0] == authed[i] && rest[1..] == authed[i + 1..];
      var read := ReadRange(authed[i], data);
      if read.Err? {
        return Err(read.error);
      }
      AfterOne(revealed, read.value, ReadRevealed(authed[i + 1..], data));
      revealed := revealed + [read.value];
      i := i + 1;
    }
    assert authed[i..] == [];
    assert revealed + [] == revealed;
    return Ok(revealed);
  }

  // ----- the whole record -----

  function Lowercase(name: bytes): bytes { seq(|name|, i requires 0 <= i < |name| => Lower(name[i])) }

  /** The hash of the authority in its one canonical spelling; `keccak` is not interpreted. */
  function AuthorityIdOf(keccak: bytes -> bytes32, name: bytes): bytes32 { keccak(Lowercase(name)) }

  lemma AuthorityIgnoresCase(keccak: bytes -> bytes32, a: bytes, b: bytes)
    requires EqIgnoreCase(a, b)
    ensures AuthorityIdOf(keccak, a) == AuthorityIdOf(keccak, b)
  {
    assert Lowercase(a) == Lowercase(b);
  }

  /** `AttestedData::from_observed`. */
  function FromObserved(keccak: bytes -> bytes32, s: ObservedSession): Result<AttestedData, AttestError>
    requires ValidSession(s)
  {
    match U32Of(|s.sent.data|)
    case Err(e) => Err(e)
    case Ok(sentLength) =>
      match U32Of(|s.received.data|)
      case Err(e) => Err(e)
      case Ok(recvLength) =>
        match BlockFromObserved(s, Sent)
        case Err(e) => Err(e)
        case Ok(sent) =>
          match BlockFromObserved(s, Received)
          case Err(e) => Err(e)
          case Ok(received) =>
            Ok(AttestedData(AuthorityIdOf(keccak, s.authority), s.createdAt, sentLength, recvLength, sent, received))
  }

  // ----- when it succeeds -----

  /** The format can carry this commitment. */
  predicate Describable(c: TranscriptCommitment) {
    c.Hash? ==> c.hash.alg == Sha256 && |c.idx| == 1 && |c.hash.value| == 32 && c.idx[0].end < U32_LIMIT
  }

  function EntryOf(c: TranscriptCommitment): RangeCommitment
    requires c.Hash? && Describable(c)
  {
    SingleIsOrdered(c.idx);
    RangeCommitment(c.idx[0].start, c.idx[0].end, c.hash.value)
  }

  lemma SingleIsOrdered(rs: RangeSet)
    requires |rs| == 1
    ensures rs[0].start < rs[0].end
  {
    assert rs[0] in rs;
  }

  /** The entries of one direction's commitments, in the order given. */
  function Entries(cs: seq<TranscriptCommitment>, direction: Direction): seq<RangeCommitment>
    requires forall c | c in cs :: Describable(c)
  {
    if cs == [] then []
    else if cs[0].OtherKind? || cs[0].direction != direction then Entries(cs[1..], direction)
    else [EntryOf(cs[0])] + Entries(cs[1..], direction)
  }

  lemma HashReads(c: TranscriptCommitment)
    requires c.Hash?
    ensures ReadHash(c.idx, c.hash).Ok? <==> Describable(c)
    ensures Describable(c) ==> ReadHash(c.idx, c.hash) == Ok(EntryOf(c))
  {
    if |c.idx| == 1 { SingleIsOrdered(c.idx); }
  }

  lemma {:induction false} CommitmentsRead(cs: seq<TranscriptCommitment>, direction: Direction)
    ensures ReadCommitments(cs, direction).Ok? <==> forall c | c in cs && c.Hash? && c.direction == direction :: Describable(c)
    ensures (forall c | c in cs :: Describable(c)) ==> ReadCommitments(cs, direction) == Ok(Entries(cs, direction))
  {
    hide ReadHash, Describable;
    if cs != [] {
      HeadAndRest(cs);
      forall c | c in cs[1..] ensures c in cs {}
      CommitmentsRead(cs[1..], direction);
      if cs[0].Hash? { HashReads(cs[0]); }
    }
  }

  lemma {:induction false} RevealedReads(ranges: seq<Range>, data: bytes)
    requires InBounds(ranges, |data|)
    ensures ReadRevealed(ranges, data).Ok? <==> forall r | r in ranges :: r.end < U32_LIMIT
    ensures ReadRevealed(ranges, data).Ok? ==>
              var rs := ReadRevealed(ranges, data).value;
              |rs| == |ranges| &&
              forall i | 0 <= i < |rs| :: rs[i].start == ranges[i].start && rs[i].data == data[ranges[i].start..ranges[i].end]
  {
    if ranges != [] {
      HeadAndRest(ranges);
      assert ranges[0] in ranges;
      forall r | r in ranges[1..] ensures r in ranges {}
      RevealedReads(ranges[1..], data);
    }
  }

  /** The record exists exactly when both lengths fit 32 bits and every hash
      commitment is SHA-256, over one range that ends within 32 bits, and 32 bytes long. */
  lemma SucceedsIff(keccak: bytes -> bytes32, s: ObservedSession)
    requires ValidSession(s)
    ensures FromObserved(keccak, s).Ok? <==>
            |s.sent.data| < U32_LIMIT && |s.received.data| < U32_LIMIT && forall c | c in s.commitments :: Describable(c)
  {
    hide ReadRevealed, ReadCommitments, SortBy, Describable;
    CommitmentsRead(s.commitments, Sent);
    CommitmentsRead(s.commitments, Received);
    RevealedReads(s.sent.authed, s.sent.data);
    RevealedReads(s.received.authed, s.received.data);
    OtherIsDescribable();
    assert forall c | c in s.commitments && c.Hash? :: c.direction == Sent || c.direction == Received;
  }

  lemma OtherIsDescribable()
    ensures Describable(OtherKind)
  {
  }

  /** What a record says of its session: who was asked, when, how long both directions
      were, and in each direction every revealed range at its offset with its bytes. */
  lemma RecordCarriesTheSession(keccak: bytes -> bytes32, s: ObservedSession, d: AttestedData)
    requires ValidSession(s) && FromObserved(keccak, s) == Ok(d)
    ensures d.authorityId == keccak(Lowercase(s.authority)) && d.createdAt == s.createdAt
    ensures d.sentTranscriptLength == |s.sent.data| && d.recvTranscriptLength == |s.received.data|
    ensures Opens(d.sent.revealed, s.sent) && Opens(d.received.revealed, s.received)
  {
    hide ReadRevealed, ReadCommitments, SortBy;
    RevealedReads(s.sent.authed, s.sent.data);
    RevealedReads(s.received.authed, s.received.data);
  }

  predicate Opens(revealed: seq<RevealedRange>, side: PartialDirection)
    requires ValidDirection(side)
  {
    && |revealed| == |side.authed|
    && forall i | 0 <= i < |revealed| ::
         revealed[i].start == side.authed[i].start && revealed[i].data == side.data[side.authed[i].start..side.authed[i].end]
  }

  predicate Bounds(r: Range, offset: nat) { offset == r.start || offset == r.end }

  /** The session has this length, or a revealed or committed range with this end. */
  predicate HasOffset(s: ObservedSession, offset: nat) {
    || offset == |s.sent.data| || offset == |s.received.data|
    || (exists r | r in s.sent.authed :: Bounds(r, offset))
    || (exists r | r in s.received.authed :: Bounds(r, offset))
    || exists c | c in s.commitments :: c.Hash? && exists r | r in c.idx :: Bounds(r, offset)
  }

  /** The error names a fault that is there. */
  predicate Blames(e: AttestError, s: ObservedSession) {
    match e
    case OffsetTooLarge(offset) => offset >= U32_LIMIT && HasOffset(s, offset)
    case WrongCommitmentAlgorithm(alg) => alg != Sha256 && exists c | c in s.commitments :: c.Hash? && c.hash.alg == alg
    case DisjointCommitment(ranges) => ranges != 1 && exists c | c in s.commitments :: c.Hash? && |c.idx| == ranges
    case BadCommitmentLength(length) => length != 32 && exists c | c in s.commitments :: c.Hash? && |c.hash.value| == length
  }

  lemma HashBlames(s: ObservedSession, c: TranscriptCommitment)
    requires c in s.commitments && c.Hash?
    ensures ReadHash(c.idx, c.hash).Err? ==> Blames(ReadHash(c.idx, c.hash).error, s)
  {
    if |c.idx| == 1 { assert c.idx[0] in c.idx && Bounds(c.idx[0], c.idx[0].start) && Bounds(c.idx[0], c.idx[0].end); }
  }

  lemma {:induction false} CommitmentsBlame(s: ObservedSession, cs: seq<TranscriptCommitment>, direction: Direction)
    requires forall c | c in cs :: c in s.commitments
    ensures ReadCommitments(cs, direction).Err? ==> Blames(ReadCommitments(cs, direction).error, s)
  {
    hide HasOffset, ReadHash;
    if cs != [] {
      assert cs[0] in cs;
      forall c | c in cs[1..] ensures c in s.commitments { assert c in cs; }
      CommitmentsBlame(s, cs[1..], direction);
      if cs[0].Hash? { HashBlames(s, cs[0]); }
    }
  }

  lemma {:induction false} RevealedBlame(s: ObservedSession, ranges: seq<Range>, data: bytes)
    requires InBounds(ranges, |data|)
    requires forall r | r in ranges :: r in s.sent.authed || r in s.received.authed
    ensures ReadRevealed(ranges, data).Err? ==> Blames(ReadRevealed(ranges, data).error, s)
  {
    if ranges != [] {
      assert ranges[0] in ranges && Bounds(ranges[0], ranges[0].start) && Bounds(ranges[0], ranges[0].end);
      forall r | r in ranges[1..] ensures r in ranges {}
      RevealedBlame(s, ranges[1..], data);
    }
  }

  /** And when there is no record, the error says why. */
  lemma FailureIsBlamed(keccak: bytes -> bytes32, s: ObservedSession)
    requires ValidSession(s)
    ensures FromObserved(keccak, s).Err? ==> Blames(FromObserved(keccak, s).error, s)
  {
    hide ReadRevealed, ReadCommitments, SortBy;
    CommitmentsBlame(s, s.commitments, Sent);
    CommitmentsBlame(s, s.commitments, Received);
    RevealedBlame(s, s.sent.authed, s.sent.data);
    RevealedBlame(s, s.received.authed, s.received.data);
  }

  // ----- which error -----

  /** The error of one commitment, its checks in order. */
  predicate Faults(c: TranscriptCommitment, e: AttestError)
    requires c.Hash?
  {
    if c.hash.alg != Sha256 then e == WrongCommitmentAlgorithm(c.hash.alg)
    else if |c.idx| != 1 then e == DisjointCommitment(|c.idx|)
    else if |c.hash.value| != 32 then e == BadCommitmentLength(|c.hash.value|)
    else if c.idx[0].start >= 0x1_0000_0000 then e == OffsetTooLarge(c.idx[0].start)
    else c.idx[0].end >= 0x1_0000_0000 && e == OffsetTooLarge(c.idx[0].end)
  }

  /** Commitment `k` is the first of its direction that the format cannot carry. */
  predicate FirstFault(cs: seq<TranscriptCommitment>, direction: Direction, k: nat) {
    && k < |cs| && cs[k].Hash? && cs[k].direction == direction && !Describable(cs[k])
    && forall i | 0 <= i < k && cs[i].Hash? && cs[i].direction == direction :: Describable(cs[i])
  }

  lemma {:induction false} FirstFaultIsRead(cs: seq<TranscriptCommitment>, direction: Direction, k: nat)
    requires FirstFault(cs, direction, k)
    ensures ReadCommitments(cs, direction).Err? && Faults(cs[k], ReadCommitments(cs, direction).error)
    decreases k
  {
    hide ReadHash, Describable, Faults;
    if k == 0 {
      FaultIsRead(cs[0]);
    } else {
      if cs[0].Hash? { HashReads(cs[0]); }
      assert forall i | 0 <= i < k - 1 && cs[1..][i].Hash? && cs[1..][i].direction == direction :: Describable(cs[i + 1]);
      FirstFaultIsRead(cs[1..], direction, k - 1);
    }
  }

  lemma FaultIsRead(c: TranscriptCommitment)
    requires c.Hash? && !Describable(c)
    ensures ReadHash(c.idx, c.hash).Err? && Faults(c, ReadHash(c.idx, c.hash).error)
  {
    if |c.idx| == 1 { SingleIsOrdered(c.idx); }
  }

  /** Which error, in the source's order: the sent length, the received length, the first
      faulty commitment sent, the first received. */
  lemma FailsInOrder(keccak: bytes -> bytes32, s: ObservedSession, k: nat)
    requires ValidSession(s)
    ensures |s.sent.data| >= 0x1_0000_0000 ==> FromObserved(keccak, s) == Err(OffsetTooLarge(|s.sent.data|))
    ensures |s.sent.data| < 0x1_0000_0000 <= |s.received.data| ==> FromObserved(keccak, s) == Err(OffsetTooLarge(|s.received.data|))
    ensures |s.sent.data| < 0x1_0000_0000 && |s.received.data| < 0x1_0000_0000 &&
            (FirstFault(s.commitments, Sent, k) ||
             (FirstFault(s.commitments, Received, k) &&
              forall c | c in s.commitments && c.Hash? && c.direction == Sent :: Describable(c))) ==>
              FromObserved(keccak, s).Err? && Faults(s.commitments[k], FromObserved(keccak, s).error)
  {
    hide ReadRevealed, ReadCommitments, SortBy, Describable, Faults, FirstFault;
    RevealedReads(s.sent.authed, s.sent.data);
    RevealedReads(s.received.authed, s.received.data);
    CommitmentsRead(s.commitments, Sent);
    FaultIsHash(s.commitments, k);
    if FirstFault(s.commitments, Sent, k) { FirstFaultIsRead(s.commitments, Sent, k); }
    if FirstFault(s.commitments, Received, k) { FirstFaultIsRead(s.commitments, Received, k); }
  }

  lemma FaultIsHash(cs: seq<TranscriptCommitment>, k: nat)
    ensures forall d | FirstFault(cs, d, k) :: k < |cs| && cs[k].Hash?
  {
  }

  /** Folding keeps the length, turns each capital into its letter, and nothing else. */
  lemma LowercaseFolds(name: bytes)
    ensures |Lowercase(name)| == |name|
    ensures forall i | 0 <= i < |name| :: Lowercase(name)[i] == if 65 <= name[i] <= 90 then name[i] + 32 else name[i]
  {
  }

  // ----- order -----

  lemma {:induction false} EntriesJoin(a: seq<TranscriptCommitment>, b: seq<TranscriptCommitment>, direction: Direction)
    requires forall c | c in a + b :: Describable(c)
    ensures (forall c | c in a :: Describable(c)) && (forall c | c in b :: Describable(c))
    ensures Entries(a + b, direction) == Entries(a, direction) + Entries(b, direction)
    decreases |a|
  {
    hide Describable;
    forall c | c in a ensures c in a + b {}
    forall c | c in b ensures c in a + b {}
    if a == [] {
      assert a + b == b;
    } else {
      assert (a + b)[1..] == a[1..] + b;
      forall c | c in a[1..] + b ensures c in a + b {}
      EntriesJoin(a[1..], b, direction);
    }
  }

  lemma {:induction false} EntriesPermute(a: seq<TranscriptCommitment>, b: seq<TranscriptCommitment>, direction: Direction)
    requires multiset(a) == multiset(b) && forall c | c in a :: Describable(c)
    ensures forall c | c in b :: Describable(c)
    ensures multiset(Entries(a, direction)) == multiset(Entries(b, direction))
    decreases |a|
  {
    hide Describable, EntryOf;
    SameElements(a, b);
    if a == [] {
      EmptyPermutation(b);
    } else {
      var k := PermutationStep(a, b);
      forall c | c in a[1..] ensures c in a {}
      EntriesPermute(a[1..], b[..k] + b[k + 1..], direction);
      EntriesTakenOut(b, k, direction);
      EntriesTakenOut(a, 0, direction);
      assert a[..0] + a[1..] == a[1..];
    }
  }

  lemma EntriesTakenOut(b: seq<TranscriptCommitment>, k: nat, direction: Direction)
    requires k < |b| && forall c | c in b :: Describable(c)
    ensures forall c | c in b[..k] + b[k + 1..] :: Describable(c)
    ensures multiset(Entries(b, direction)) ==
            multiset(Entries([b[k]], direction)) + multiset(Entries(b[..k] + b[k + 1..], direction))
  {
    hide Describable, Entries;
    var tail := [b[k]] + b[k + 1..];
    assert b == b[..k] + tail;
    forall c | c in b[..k] + b[k + 1..] ensures c in b {}
    EntriesJoin(b[..k], tail, direction);
    EntriesJoin([b[k]], b[k + 1..], direction);
    EntriesJoin(b[..k], b[k + 1..], direction);
  }

  /** What a describable session's block holds: its revealed ranges with their
      bytes, and its entries, sorted by start. */
  lemma BlockOf(s: ObservedSession, direction: Direction)
    requires ValidSession(s) && |Side(s, direction).data| < U32_LIMIT && forall c | c in s.commitments :: Describable(c)
    ensures BlockFromObserved(s, direction).Ok?
    ensures BlockFromObserved(s, direction).value.commitments == SortBy(Entries(s.commitments, direction), CommitmentStart)
    ensures Opens(BlockFromObserved(s, direction).value.revealed, Side(s, direction))
  {
    hide ReadRevealed, ReadCommitments, SortBy, Describable, Entries;
    CommitmentsRead(s.commitments, direction);
    RevealedReads(Side(s, direction).authed, Side(s, direction).data);
  }

  /** The commitments of a record are an ascending permutation of that direction's
      hash commitments, whatever order they were given in. */
  lemma CommitmentsSorted(keccak: bytes -> bytes32, s: ObservedSession, d: AttestedData, direction: Direction)
    requires ValidSession(s) && FromObserved(keccak, s) == Ok(d)
    ensures forall c | c in s.commitments :: Describable(c)
    ensures var b := if direction == Sent then d.sent else d.received;
            && Ascending(b.commitments, CommitmentStart)
            && multiset(b.commitments) == multiset(Entries(s.commitments, direction))
  {
    hide SortBy, Describable, Entries, Ascending, BlockFromObserved;
    SucceedsIff(keccak, s);
    BlockOf(s, direction);
    SortByIsSorted(Entries(s.commitments, direction), CommitmentStart);
  }

  /** No two different entries of the direction start at the same offset. */
  predicate StartsApart(cs: seq<TranscriptCommitment>, direction: Direction)
    requires forall c | c in cs :: Describable(c)
  {
    forall x, y | x in Entries(cs, direction) && y in Entries(cs, direction) && x != y :: x.start != y.start
  }

  /** The order of the commitment list decides nothing: success does not depend on
      it, and neither does the record where starts are distinct within each direction. */
  lemma OrderDoesNotMatter(keccak: bytes -> bytes32, s: ObservedSession, commitments: seq<TranscriptCommitment>)
    requires ValidSession(s) && multiset(commitments) == multiset(s.commitments)
    ensures var t := s.(commitments := commitments);
            && (FromObserved(keccak, s).Ok? <==> FromObserved(keccak, t).Ok?)
            && (FromObserved(keccak, s).Ok? ==>
                  && (forall c | c in s.commitments :: Describable(c))
                  && (StartsApart(s.commitments, Sent) && StartsApart(s.commitments, Received) ==>
                        FromObserved(keccak, s) == FromObserved(keccak, t)))
  {
    hide BlockFromObserved, Describable, StartsApart, AuthorityIdOf;
    var t := s.(commitments := commitments);
    SucceedsIff(keccak, s);
    SucceedsIff(keccak, t);
    SameElements(commitments, s.commitments);
    if FromObserved(keccak, s).Ok? {
      if StartsApart(s.commitments, Sent) { BlockIgnoresOrder(s, t, Sent); }
      if StartsApart(s.commitments, Received) { BlockIgnoresOrder(s, t, Received); }
    }
  }

  lemma BlockIgnoresOrder(s: ObservedSession, t: ObservedSession, direction: Direction)
    requires ValidSession(s) && t == s.(commitments := t.commitments)
    requires multiset(t.commitments) == multiset(s.commitments) && |Side(s, direction).data| < U32_LIMIT
    requires (forall c | c in s.commitments :: Describable(c)) && StartsApart(s.commitments, direction)
    ensures BlockFromObserved(s, direction) == BlockFromObserved(t, direction)
  {
    hide Describable, Entries, SortBy, Ascending, BlockFromObserved;
    EntriesPermute(s.commitments, t.commitments, direction);
    BlockOf(s, direction);
    BlockOf(t, direction);
    var a, b := Entries(s.commitments, direction), Entries(t.commitments, direction);
    SortByIsSorted(a, CommitmentStart);
    SortByIsSorted(b, CommitmentStart);
    SameElements(SortBy(a, CommitmentStart), a);
    SortedIsUnique(SortBy(a, CommitmentStart), SortBy(b, CommitmentStart), CommitmentStart);
    RevealedIsSame(BlockFromObserved(s, direction).value.revealed, BlockFromObserved(t, direction).value.revealed,
                   Side(s, direction));
  }

  lemma RevealedIsSame(a: seq<RevealedRange>, b: seq<RevealedRange>, side: PartialDirection)
    requires ValidDirection(side) && Opens(a, side) && Opens(b, side)
    ensures a == b
  {
    forall i | 0 <= i < |a| ensures a[i] == b[i] {}
  }
}
