/** The length-prefixed framing the two parties speak after the session. */
module Wire {
  import opened Wrappers
  import opened Octets
  import Record

  const MAX_MSG_SIZE: nat := 10 * 1024 * 1024

  datatype WireError = Encoding | TooLargeToEncode(len: nat) | UnexpectedEof | TooLarge(len: nat) | Malformed

  type WireResult<T> = Result<T, WireError>

  /** The JSON layer: printing may refuse a value, parsing may refuse bytes. */
  datatype Codec<!M> = Codec(printed: M -> Option<bytes>, parsed: bytes -> Option<M>)

  /** The codec gives this message back. */
  ghost predicate RoundTrips<M>(codec: Codec<M>, m: M) {
    codec.printed(m).Some? && codec.parsed(codec.printed(m).value) == Some(m)
  }

  /** A length prefix and the payload it counts. */
  function Framed(payload: bytes): bytes { Record.EncodeUint(|payload|, 4) + payload }

  function Frame<M>(codec: Codec<M>, m: M): WireResult<bytes> {
    match codec.printed(m)
    case None => Err(Encoding)
    case Some(json) => if |json| >= Record.U32_LIMIT then Err(TooLargeToEncode(|json|)) else Ok(Framed(json))
  }

  /** One message off the front, and what is left; a short stream is used up. */
  function ReadFrame<M>(codec: Codec<M>, s: bytes): (WireResult<M>, bytes) {
    if |s| < 4 then (Err(UnexpectedEof), [])
    else
      var len, rest := Record.DecodeUint(s[..4]), s[4..];
      if len > MAX_MSG_SIZE then (Err(TooLarge(len)), rest)
      else if |rest| < len then (Err(UnexpectedEof), [])
      else
        (match codec.parsed(rest[..len])
         case Some(m) => Ok(m)
         case None => Err(Malformed),
         rest[len..])
  }

  /** One direction of the recovered socket: the bytes written and not yet read. */
  class Stream {
    var pending: bytes

    constructor ()
      ensures pending == []
    {
      pending := [];
    }

    method WriteAll(data: bytes)
      modifies this
      ensures pending == old(pending) + data
    {
      pending := pending + data;
    }

    /** Fills a buffer of `n` bytes, or meets the end of the stream. */
    method ReadExact(n: nat) returns (r: Option<bytes>)
      modifies this
      ensures if n <= |old(pending)| then r == Some(old(pending)[..n]) && pending == old(pending)[n..]
              else r.None? && pending == []
    {
      if n <= |pending| {
        r := Some(pending[..n]);
        pending := pending[n..];
      } else {
        r := None;
        pending := [];
      }
    }

    /** A message that cannot be framed leaves the stream alone. */
    method WriteMsg<M>(codec: Codec<M>, m: M) returns (r: WireResult<()>)
      modifies this
      ensures r == match Frame(codec, m) { case Ok(_) => Ok(()) case Err(e) => Err(e) }
      ensures pending == old(pending) + match Frame(codec, m) { case Ok(s) => s case Err(_) => [] }
    {
      match codec.printed(m)
      case None => return Err(Encoding);
      case Some(json) =>
        if |json| >= Record.U32_LIMIT {
          return Err(TooLargeToEncode(|json|));
        }
        WriteAll(Record.EncodeUint(|json|, 4));
        WriteAll(json);
        return Ok(());
    }

    method ReadMsg<M>(codec: Codec<M>) returns (r: WireResult<M>)
      modifies this
      ensures (r, pending) == ReadFrame(codec, old(pending))
    {
      var prefix := ReadExact(4);
      if prefix.None? {
        return Err(UnexpectedEof);
      }
      var len := Record.DecodeUint(prefix.value);
      if len > MAX_MSG_SIZE {
        return Err(TooLarge(len));
      }
      var buf := ReadExact(len);
      if buf.None? {
        return Err(UnexpectedEof);
      }
      match codec.parsed(buf.value)
      case Some(m) => return Ok(m);
      case None => return Err(Malformed);
    }
  }

  // ----- one frame -----

  lemma PrefixReadsBack(payload: bytes, tail: bytes)
    requires |payload| < Record.U32_LIMIT
    ensures var s := Framed(payload) + tail;
            && |s| == 4 + |payload| + |tail| && Record.DecodeUint(s[..4]) == |payload| && s[4..] == payload + tail
  {
    hide Record.EncodeUint, Record.DecodeUint, Record.Pow256;
    Record.Widths();
    Record.UintRoundTrip(|payload|, 4);
    assert (Framed(payload) + tail)[..4] == Record.EncodeUint(|payload|, 4);
  }

  /** A written message is read back, and the bytes behind it are left, exactly when its
      JSON is within the reader's bound; the writer alone does not hold it to that bound. */
  lemma WrittenMessageReadsBack<M>(codec: Codec<M>, m: M, tail: bytes)
    requires RoundTrips(codec, m) && Frame(codec, m).Ok?
    ensures ReadFrame(codec, Frame(codec, m).value + tail) == (Ok(m), tail) <==> |codec.printed(m).value| <= MAX_MSG_SIZE
    ensures |codec.printed(m).value| > MAX_MSG_SIZE ==>
            ReadFrame(codec, Frame(codec, m).value + tail).0 == Err(TooLarge(|codec.printed(m).value|))
  {
    hide Framed, Record.DecodeUint;
    var json := codec.printed(m).value;
    PrefixReadsBack(json, tail);
    assert (json + tail)[..|json|] == json;
    assert (json + tail)[|json|..] == tail;
  }

  /** Whatever is read was framed: a message comes out exactly when the stream begins with
      a frame whose payload is within the bound and parses to it. */
  lemma ReadsExactlyFrames<M>(codec: Codec<M>, s: bytes, m: M, rest: bytes)
    ensures ReadFrame(codec, s) == (Ok(m), rest) <==>
            exists payload: bytes :: s == Framed(payload) + rest && |payload| <= MAX_MSG_SIZE && codec.parsed(payload) == Some(m)
  {
    hide ReadFrame, Framed, Record.DecodeUint;
    if ReadFrame(codec, s) == (Ok(m), rest) {
      var payload := FramedWasRead(codec, s);
      assert s == Framed(payload) + rest;
    }
    forall payload: bytes | s == Framed(payload) + rest && |payload| <= MAX_MSG_SIZE && codec.parsed(payload) == Some(m)
      ensures ReadFrame(codec, s) == (Ok(m), rest)
    {
      FramedIsRead(codec, payload, rest);
    }
  }

  lemma FramedIsRead<M>(codec: Codec<M>, payload: bytes, rest: bytes)
    requires |payload| <= MAX_MSG_SIZE && codec.parsed(payload).Some?
    ensures ReadFrame(codec, Framed(payload) + rest) == (Ok(codec.parsed(payload).value), rest)
  {
    hide Framed, Record.DecodeUint;
    PrefixReadsBack(payload, rest);
    assert (payload + rest)[..|payload|] == payload;
    assert (payload + rest)[|payload|..] == rest;
  }

  lemma FramedWasRead<M>(codec: Codec<M>, s: bytes) returns (payload: bytes)
    requires ReadFrame(codec, s).0.Ok?
    ensures |payload| <= MAX_MSG_SIZE && codec.parsed(payload) == Some(ReadFrame(codec, s).0.value)
    ensures s == Framed(payload) + ReadFrame(codec, s).1
  {
    hide Record.EncodeUint, Record.DecodeUint;
    Record.UintReadBack(s[..4]);
    var len := Record.DecodeUint(s[..4]);
    payload := s[4..][..len];
    assert s == s[..4] + (payload + s[4..][len..]);
  }

  /** A frame cut short is the end of the stream, never a shorter message. */
  lemma TruncatedFrameIsEof<M>(codec: Codec<M>, payload: bytes, n: nat)
    requires |payload| <= MAX_MSG_SIZE && n < |Framed(payload)|
    ensures ReadFrame(codec, Framed(payload)[..n]) == (Err(UnexpectedEof), [])
  {
    hide Framed, Record.DecodeUint;
    PrefixReadsBack(payload, []);
    assert Framed(payload) + [] == Framed(payload);
    if n >= 4 { assert Framed(payload)[..n][..4] == Framed(payload)[..4]; }
  }

  // ----- errors -----

  /** Four bytes as a number, most significant first. */
  function Declared(s: bytes): nat
    requires |s| >= 4
  {
    s[0] as int * 0x100_0000 + s[1] as int * 0x1_0000 + s[2] as int * 0x100 + s[3] as int
  }

  lemma DeclaredIsDecoded(s: bytes)
    requires |s| >= 4
    ensures Record.DecodeUint(s[..4]) == Declared(s)
  {
    assert s[..4][..3] == s[..3] && s[..3][..2] == s[..2] && s[..2][..1] == s[..1] && s[..1][..0] == [];
    assert Record.DecodeUint(s[..1]) == s[0];
    assert Record.DecodeUint(s[..2]) == s[0] as int * 256 + s[1] as int;
    assert Record.DecodeUint(s[..3]) == (s[0] as int * 256 + s[1] as int) * 256 + s[2] as int;
  }

  /** Reading, for every stream: which error, and what it leaves. Ten mebibytes is the bound. */
  lemma ReadsExactly<M>(codec: Codec<M>, s: bytes)
    ensures |s| < 4 ==> ReadFrame(codec, s) == (Err(UnexpectedEof), [])
    ensures |s| >= 4 && Declared(s) > 10485760 ==> ReadFrame(codec, s) == (Err(TooLarge(Declared(s))), s[4..])
    ensures |s| >= 4 && |s| - 4 < Declared(s) <= 10485760 ==> ReadFrame(codec, s) == (Err(UnexpectedEof), [])
    ensures |s| >= 4 && Declared(s) <= 10485760 && Declared(s) <= |s| - 4 ==>
              var parsed := codec.parsed(s[4..4 + Declared(s)]);
              ReadFrame(codec, s) == (if parsed.Some? then Ok(parsed.value) else Err(Malformed), s[4 + Declared(s)..])
  {
    hide Record.DecodeUint, Declared;
    if |s| >= 4 {
      DeclaredIsDecoded(s);
      var n := Declared(s);
      if n <= |s| - 4 { assert s[4..][..n] == s[4..4 + n] && s[4..][n..] == s[4 + n..]; }
    }
  }

  /** Writing, for every message: refused when it cannot be printed or its length does not
      fit four bytes, and otherwise those four bytes and the payload. */
  lemma FramesExactly<M>(codec: Codec<M>, m: M)
    ensures codec.printed(m).None? ==> Frame(codec, m) == Err(Encoding)
    ensures codec.printed(m).Some? && |codec.printed(m).value| >= 0x1_0000_0000 ==>
              Frame(codec, m) == Err(TooLargeToEncode(|codec.printed(m).value|))
    ensures codec.printed(m).Some? && |codec.printed(m).value| < 0x1_0000_0000 ==>
              Frame(codec, m).Ok? && |Frame(codec, m).value| >= 4 &&
              Declared(Frame(codec, m).value) == |codec.printed(m).value| && Frame(codec, m).value[4..] == codec.printed(m).value
  {
    hide Framed, Declared, Record.DecodeUint;
    if Frame(codec, m).Ok? {
      var json := codec.printed(m).value;
      PrefixReadsBack(json, []);
      assert Framed(json) + [] == Framed(json) && json + [] == json;
      DeclaredIsDecoded(Framed(json));
    }
  }

  // ----- a whole conversation -----

  /** The stream after every message was written in turn, if each could be. */
  function Written<M>(codec: Codec<M>, ms: seq<M>): Option<bytes> {
    if ms == [] then Some([])
    else
      match (Frame(codec, ms[0]), Written(codec, ms[1..]))
      case (Ok(s), Some(rest)) => Some(s + rest)
      case _ => None
  }

  /** `n` reads in turn, stopping at the first that fails. */
  function ReadMany<M>(codec: Codec<M>, n: nat, s: bytes): (WireResult<seq<M>>, bytes) {
    if n == 0 then (Ok([]), s)
    else
      match ReadFrame(codec, s)
      case (Err(e), rest) => (Err(e), rest)
      case (Ok(m), rest) =>
        match ReadMany(codec, n - 1, rest)
        case (Ok(ms), left) => (Ok([m] + ms), left)
        case (Err(e), left) => (Err(e), left)
  }

  predicate WithinBound<M>(codec: Codec<M>, m: M) {
    codec.printed(m).Some? && |codec.printed(m).value| <= MAX_MSG_SIZE
  }

  /** For any list of messages the codec gives back: all can be written, and as many reads
      then give the same messages in the same order and leave what follows them, exactly
      when every message is within the reader's bound. */
  lemma {:induction false} ConversationReadsBack<M>(codec: Codec<M>, ms: seq<M>, tail: bytes)
    requires forall i | 0 <= i < |ms| :: RoundTrips(codec, ms[i])
    ensures (Written(codec, ms).Some? && ReadMany(codec, |ms|, Written(codec, ms).value + tail) == (Ok(ms), tail))
            <==> forall i | 0 <= i < |ms| :: WithinBound(codec, ms[i])
    decreases |ms|
  {
    hide Frame, ReadFrame;
    if ms == [] {
      assert Written(codec, ms).value + tail == tail;
    } else {
      assert ms == [ms[0]] + ms[1..];
      ConversationReadsBack(codec, ms[1..], tail);
      WithinBoundIsFramed(codec, ms[0]);
      if Written(codec, ms).Some? {
        var s, rest := Frame(codec, ms[0]).value, Written(codec, ms[1..]).value;
        assert s + rest + tail == s + (rest + tail);
        WrittenMessageReadsBack(codec, ms[0], rest + tail);
      }
    }
  }

  lemma WithinBoundIsFramed<M>(codec: Codec<M>, m: M)
    ensures WithinBound(codec, m) ==> Frame(codec, m).Ok?
  {
  }
}
