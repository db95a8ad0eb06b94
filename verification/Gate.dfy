/** The verifier's setup: what it checks before it accepts a prover's request. */
module Gate {
  import opened Wrappers
  import opened Octets
  import opened Ranges
  import opened Attest

  const MAX_SENT_DATA: nat := 4096
  const MAX_RECV_DATA: nat := 32768

  // ----- lengths and ends -----

  datatype ContentType = ApplicationData | OtherContent

  /** A TLS record of the finished session. */
  datatype TlsRecord = TlsRecord(typ: ContentType, ciphertext: bytes)

  function ApplicationDataLen(records: seq<TlsRecord>): nat {
    if records == [] then 0
    else (if records[0].typ.ApplicationData? then |records[0].ciphertext| else 0) + ApplicationDataLen(records[1..])
  }

  /** A direction's plaintext, its application-data records joined. */
  function ApplicationBytes(records: seq<TlsRecord>): bytes {
    if records == [] then []
    else (if records[0].typ.ApplicationData? then records[0].ciphertext else []) + ApplicationBytes(records[1..])
  }

  lemma {:induction false} LengthCountsApplicationData(records: seq<TlsRecord>)
    ensures ApplicationDataLen(records) == |ApplicationBytes(records)|
  {
    if records != [] { LengthCountsApplicationData(records[1..]); }
  }

  /** The exclusive end of the last range, if there is one. */
  function EndOf(idx: RangeSet): Option<nat> {
    if idx == [] then None else Some(idx[|idx| - 1].end)
  }

  /** Searches the commitments in order for an end beyond its direction's length. */
  function CommitmentPastTheSession(commitments: seq<(Direction, Option<nat>)>, sentLen: nat, recvLen: nat)
    : Option<(Direction, nat, nat)>
  {
    if commitments == [] then None
    else
      var (direction, end) := commitments[0];
      var len := if direction == Sent then sentLen else recvLen;
      if end.Some? && end.value > len then Some((direction, end.value, len))
      else CommitmentPastTheSession(commitments[1..], sentLen, recvLen)
  }

  function LenOf(direction: Direction, sentLen: nat, recvLen: nat): nat {
    if direction == Sent then sentLen else recvLen
  }

  predicate Overruns(c: (Direction, Option<nat>), sentLen: nat, recvLen: nat) {
    c.1.Some? && c.1.value > LenOf(c.0, sentLen, recvLen)
  }

  /** None exactly when every end is in bounds of its own direction; otherwise the
      first overrun in list order, with the end and the length it passed. */
  lemma {:induction false} OverrunIsFirst(commitments: seq<(Direction, Option<nat>)>, sentLen: nat, recvLen: nat)
    ensures match CommitmentPastTheSession(commitments, sentLen, recvLen)
            case None => forall i | 0 <= i < |commitments| :: !Overruns(commitments[i], sentLen, recvLen)
            case Some((direction, end, len)) =>
              exists k :: 0 <= k < |commitments| && Overruns(commitments[k], sentLen, recvLen) &&
                commitments[k] == (direction, Some(end)) && len == LenOf(direction, sentLen, recvLen) &&
                forall i | 0 <= i < k :: !Overruns(commitments[i], sentLen, recvLen)
    decreases |commitments|
  {
    if commitments != [] {
      var rest := commitments[1..];
      if Overruns(commitments[0], sentLen, recvLen) {
      } else {
        OverrunIsFirst(rest, sentLen, recvLen);
        match CommitmentPastTheSession(rest, sentLen, recvLen)
        case None =>
          forall i | 0 <= i < |commitments| ensures !Overruns(commitments[i], sentLen, recvLen) {
            if i > 0 { assert commitments[i] == rest[i - 1]; }
          }
        case Some((direction, end, len)) =>
          var k :| 0 <= k < |rest| && Overruns(rest[k], sentLen, recvLen) && rest[k] == (direction, Some(end)) &&
                   forall i | 0 <= i < k :: !Overruns(rest[i], sentLen, recvLen);
          assert commitments[k + 1] == rest[k];
          forall i | 0 <= i < k + 1 ensures !Overruns(commitments[i], sentLen, recvLen) {
            if i > 0 { assert commitments[i] == rest[i - 1]; }
          }
      }
    }
  }

  lemma {:induction false} NormalEndsAscend(idx: RangeSet, i: nat, j: nat)
    requires i <= j < |idx|
    ensures idx[i].start < idx[i].end <= idx[j].end
    decreases j - i
  {
    assert idx[i] in idx;
    if i < j {
      assert idx[i].end < idx[i + 1].start;
      NormalEndsAscend(idx, i + 1, j);
    }
  }

  /** Bounding the end of a set bounds every range of it: it is kept in normal form. */
  lemma EndBoundsEveryRange(idx: RangeSet, len: nat)
    requires EndOf(idx).Some? ==> EndOf(idx).value <= len
    ensures InBounds(idx, len)
  {
    forall r | r in idx ensures r.start <= r.end <= len {
      var k :| 0 <= k < |idx| && idx[k] == r;
      NormalEndsAscend(idx, k, |idx| - 1);
    }
  }

  // ----- the setup -----

  /** A step that talks to the peer or to the protocol library, and may fail. */
  datatype Stage = Commit | AcceptLimits | RunSession | Verify | AcceptRequest | Close

  /** What the peer and the library answer, in one run of the setup. */
  datatype Answers = Answers(
    fails: set<Stage>,
    isMpc: bool,
    maxSentData: nat,
    maxRecvData: nat,
    serverIdentity: bool,
    commitments: seq<(Direction, RangeSet)>,
    sentRecords: seq<TlsRecord>,
    recvRecords: seq<TlsRecord>,
    nameRevealed: bool,
    transcriptRevealed: bool)

  // An accept is called before it can fail: the call and its success are two events.
  datatype Event =
    | LimitsRejected
    | LimitsAcceptCalled
    | LimitsAccepted
    | Established
    | Verified
    | IdentityRejected
    | BoundsRejected
    | AcceptCalled
    | RequestAccepted
    | Done

  function EndsOf(commitments: seq<(Direction, RangeSet)>): seq<(Direction, Option<nat>)> {
    Map(commitments, (c: (Direction, RangeSet)) => (c.0, EndOf(c.1)))
  }

  /** The events of one run, in order; a run that stops early failed there. */
  function Setup(a: Answers): seq<Event> {
    if Commit in a.fails || !a.isMpc then []
    else if a.maxSentData > MAX_SENT_DATA || a.maxRecvData > MAX_RECV_DATA then [LimitsRejected]
    else if AcceptLimits in a.fails then [LimitsAcceptCalled]
    else if RunSession in a.fails then [LimitsAcceptCalled, LimitsAccepted]
    else if Verify in a.fails then [LimitsAcceptCalled, LimitsAccepted, Established]
    else if !a.serverIdentity then [LimitsAcceptCalled, LimitsAccepted, Established, Verified, IdentityRejected]
    else if CommitmentPastTheSession(EndsOf(a.commitments), ApplicationDataLen(a.sentRecords),
                                     ApplicationDataLen(a.recvRecords)).Some? then
      [LimitsAcceptCalled, LimitsAccepted, Established, Verified, BoundsRejected]
    else if AcceptRequest in a.fails then [LimitsAcceptCalled, LimitsAccepted, Established, Verified, AcceptCalled]
    else if !a.nameRevealed || !a.transcriptRevealed || Close in a.fails then
      [LimitsAcceptCalled, LimitsAccepted, Established, Verified, AcceptCalled, RequestAccepted]
    else [LimitsAcceptCalled, LimitsAccepted, Established, Verified, AcceptCalled, RequestAccepted, Done]
  }

  function RecordsOf(a: Answers, direction: Direction): seq<TlsRecord> {
    if direction == Sent then a.sentRecords else a.recvRecords
  }

  /** Every committed offset indexes a byte of its own direction's application data. */
  ghost predicate CommitmentsIndexTheSession(a: Answers) {
    forall i | 0 <= i < |a.commitments| ::
      InBounds(a.commitments[i].1, |ApplicationBytes(RecordsOf(a, a.commitments[i].0))|)
  }

  lemma BoundsCheckIsExact(a: Answers)
    ensures CommitmentPastTheSession(EndsOf(a.commitments), ApplicationDataLen(a.sentRecords),
                                     ApplicationDataLen(a.recvRecords)).None? <==>
            CommitmentsIndexTheSession(a)
  {
    hide CommitmentPastTheSession, ApplicationDataLen, ApplicationBytes;
    var sentLen, recvLen := ApplicationDataLen(a.sentRecords), ApplicationDataLen(a.recvRecords);
    LengthCountsApplicationData(a.sentRecords);
    LengthCountsApplicationData(a.recvRecords);
    OverrunIsFirst(EndsOf(a.commitments), sentLen, recvLen);
    forall i | 0 <= i < |a.commitments|
      ensures !Overruns(EndsOf(a.commitments)[i], sentLen, recvLen) <==>
              InBounds(a.commitments[i].1, |ApplicationBytes(RecordsOf(a, a.commitments[i].0))|)
    {
      EndCheckIsExact(a.commitments[i].1, LenOf(a.commitments[i].0, sentLen, recvLen));
    }
  }

  lemma EndCheckIsExact(idx: RangeSet, len: nat)
    ensures (EndOf(idx).Some? ==> EndOf(idx).value <= len) <==> InBounds(idx, len)
  {
    if EndOf(idx).Some? ==> EndOf(idx).value <= len { EndBoundsEveryRange(idx, len); }
    if InBounds(idx, len) && idx != [] { assert idx[|idx| - 1] in idx; }
  }

  // 4 and 32 kibibytes.
  predicate WithinLimits(a: Answers) { a.maxSentData <= 4096 && a.maxRecvData <= 32768 }

  /** No stage of the run up to here failed. */
  predicate Passed(a: Answers, stages: set<Stage>) { forall stage | stage in stages :: stage !in a.fails }

  /** The first gate: the limits' accept is called exactly when they are within both maxima. */
  lemma LimitsAcceptExactly(a: Answers)
    ensures LimitsAcceptCalled in Setup(a) <==> Passed(a, {Commit}) && a.isMpc && WithinLimits(a)
  {
    hide CommitmentPastTheSession, EndsOf, ApplicationDataLen;
  }

  /** The acceptance gate: `accept` is called, whether or not it then fails, exactly when
      no stage before it failed, the limits are within both maxima, server identity was
      asked for, and every committed range indexes only bytes its direction carried. */
  lemma AcceptsExactly(a: Answers)
    ensures AcceptCalled in Setup(a) <==>
            Passed(a, {Commit, AcceptLimits, RunSession, Verify}) && a.isMpc && WithinLimits(a) &&
            a.serverIdentity && CommitmentsIndexTheSession(a)
    ensures RequestAccepted in Setup(a) <==> AcceptCalled in Setup(a) && AcceptRequest !in a.fails
    ensures Done in Setup(a) <==>
            RequestAccepted in Setup(a) && a.nameRevealed && a.transcriptRevealed && Close !in a.fails
  {
    hide CommitmentPastTheSession, CommitmentsIndexTheSession, EndsOf, ApplicationDataLen;
    BoundsCheckIsExact(a);
  }

  /** What a refused run says to its peer: exactly the rejection of the check that failed,
      as its last word, and no accept behind it. */
  lemma RejectsExactly(a: Answers)
    ensures LimitsRejected in Setup(a) <==>
            Passed(a, {Commit}) && a.isMpc && !(a.maxSentData <= 4096 && a.maxRecvData <= 32768)
    ensures IdentityRejected in Setup(a) <==>
            Verified in Setup(a) && !a.serverIdentity
    ensures BoundsRejected in Setup(a) <==>
            Verified in Setup(a) && a.serverIdentity && !CommitmentsIndexTheSession(a)
    ensures Verified in Setup(a) <==>
            Passed(a, {Commit, AcceptLimits, RunSession, Verify}) && a.isMpc && a.maxSentData <= 4096 && a.maxRecvData <= 32768
    ensures Established in Setup(a) <==>
            Passed(a, {Commit, AcceptLimits, RunSession}) && a.isMpc && a.maxSentData <= 4096 && a.maxRecvData <= 32768
    ensures forall i | 0 <= i < |Setup(a)| && Setup(a)[i] in {LimitsRejected, IdentityRejected, BoundsRejected} ::
              i == |Setup(a)| - 1
  {
    hide CommitmentPastTheSession, CommitmentsIndexTheSession, EndsOf, ApplicationDataLen;
    BoundsCheckIsExact(a);
  }

  /** What comes before the call: the limits accepted, the flag stored, the request
      verified. Success comes only after acceptance: what the race assumes of setup. */
  lemma EstablishedFirst(a: Answers)
    ensures AcceptCalled in Setup(a) ==>
              Setup(a)[..5] == [LimitsAcceptCalled, LimitsAccepted, Established, Verified, AcceptCalled]
    ensures Done in Setup(a) ==> Established in Setup(a) && AcceptCalled in Setup(a) && RequestAccepted in Setup(a)
  {
    hide CommitmentPastTheSession, EndsOf;
  }
}
