/** An HTTP response in a raw transcript: its head, its body, and the members of
    the body at their transcript offsets. */
module Response {
  import opened Wrappers
  import opened Octets
  import opened Chunked
  import opened JsonScan

  datatype TranscriptError = NoResponseBody | BadChunking(error: ChunkError)

  const HEAD_END: bytes := [CR, LF, CR, LF]
  // "Transfer-Encoding" and "chunked".
  const TRANSFER_ENCODING: bytes := [84, 114, 97, 110, 115, 102, 101, 114, 45, 69, 110, 99, 111, 100, 105, 110, 103]
  const CHUNKED: bytes := [99, 104, 117, 110, 107, 101, 100]

  function Lower(b: byte): byte { if 65 <= b <= 90 then b + 32 else b }

  predicate EqIgnoreCase(a: bytes, b: bytes) {
    |a| == |b| && forall i | 0 <= i < |a| :: Lower(a[i]) == Lower(b[i])
  }

  predicate OccursIgnoringCase(data: bytes, needle: bytes, i: nat) {
    i + |needle| <= |data| && EqIgnoreCase(data[i..i + |needle|], needle)
  }

  /** The first case-insensitive occurrence of `needle` at or after `from`. */
  function FindIgnoringCase(data: bytes, needle: bytes, from: nat): (r: Option<nat>)
    requires needle != []
    ensures r.Some? ==> from <= r.value && r.value + |needle| <= |data|
    decreases |data| - from
  {
    if from >= |data| then None
    else if OccursIgnoringCase(data, needle, from) then Some(from)
    else FindIgnoringCase(data, needle, from + 1)
  }

  function HeaderNeedle(name: bytes): (needle: bytes)
    ensures |needle| == |name| + 4
  {
    CRLF + name + [COLON, SPACE]
  }

  function FindHeaderRange(data: bytes, name: bytes): (r: Option<Range>)
    ensures r.Some? ==> Fits(r.value, data)
  {
    match FindIgnoringCase(data, HeaderNeedle(name), 0)
    case None => None
    case Some(start) =>
      var valueStart := start + |HeaderNeedle(name)|;
      match FindFrom(data, CRLF, valueStart)
      case None => None
      case Some(valueEnd) => Some(Range(valueStart, valueEnd))
  }

  function FindResponseBodyRange(recv: bytes): (r: Option<Range>)
    ensures r.Some? ==> r.value.start <= r.value.end == |recv|
  {
    match FindFrom(recv, HEAD_END, 0)
    case None => None
    case Some(at) => Some(Range(at + 4, |recv|))
  }

  /** The header search runs over the whole of `recv`, body included. */
  predicate IsChunked(recv: bytes) {
    match FindHeaderRange(recv, TRANSFER_ENCODING)
    case None => false
    case Some(value) => FindFrom(Slice(recv, value), CHUNKED, 0).Some?
  }

  function ExtractResponseBody(recv: bytes): Result<bytes, TranscriptError> {
    match FindResponseBodyRange(recv)
    case None => Err(NoResponseBody)
    case Some(body) =>
      if IsChunked(recv) then
        match DecodeChunked(recv[body.start..])
        case Ok(out) => Ok(out)
        case Err(e) => Err(BadChunking(e))
      else Ok(recv[body.start..])
  }

  function ShiftMember(m: JsonMember, base: nat): JsonMember {
    JsonMember(Shift(m.member, base), Shift(m.value, base))
  }

  /** The raw body's member, where the decoded body's first holds the same bytes. */
  function Contiguous(rawBody: bytes, decodedBody: bytes, field: bytes): (r: Option<JsonMember>)
    ensures r.Some? ==> Fits(r.value.member, rawBody) && Fits(r.value.value, rawBody)
  {
    match InBody(decodedBody, field)
    case None => None
    case Some(decoded) =>
      match InBody(rawBody, field)
      case None => None
      case Some(raw) =>
        if Slice(rawBody, raw.member) == Slice(decodedBody, decoded.member) then Some(raw) else None
  }

  function ContiguousBare(rawBody: bytes, decodedBody: bytes, field: bytes): (r: Option<Range>)
    ensures r.Some? ==> Fits(r.value, rawBody)
  {
    match BareSnippet(decodedBody, field)
    case None => None
    case Some(decoded) =>
      match BareSnippet(rawBody, field)
      case None => None
      case Some(raw) =>
        if Slice(rawBody, raw) == Slice(decodedBody, decoded) then Some(raw) else None
  }

  /** The member named `field`, at its offsets into the raw transcript. */
  function InResponse(recv: bytes, field: bytes): Option<JsonMember> {
    match (FindResponseBodyRange(recv), ExtractResponseBody(recv))
    case (Some(body), Ok(decodedBody)) =>
      (match Contiguous(recv[body.start..], decodedBody, field)
       case None => None
       case Some(raw) => Some(ShiftMember(raw, body.start)))
    case _ => None
  }

  function ComputeFieldSnippetRange(recv: bytes, field: bytes): Option<Range> {
    match InResponse(recv, field)
    case None => None
    case Some(found) => Some(found.member)
  }

  function ComputeIdSnippetRange(recv: bytes, field: bytes, quoted: bool): Option<Range> {
    if quoted then ComputeFieldSnippetRange(recv, field)
    else
      match (FindResponseBodyRange(recv), ExtractResponseBody(recv))
      case (Some(body), Ok(decodedBody)) =>
        (match ContiguousBare(recv[body.start..], decodedBody, field)
         case None => None
         case Some(raw) => Some(Shift(raw, body.start)))
      case _ => None
  }
}
