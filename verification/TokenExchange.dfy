/** The token request's own bounds, and why a derived verifier always meets the one on it. */
module TokenExchange {
  import opened Wrappers
  import opened Octets
  import opened Base64Url
  import Record

  const MAX_CODE_BYTES: nat := 1024
  const CODE_VERIFIER_LEN: nat := 43

  datatype TokenExchangeError = EmptyCode | CodeTooLong(len: nat) | CodeNotPrintable(at: nat) | MalformedCodeVerifier

  datatype TokenRequest = TokenRequest(code: bytes, codeVerifier: bytes)

  predicate IsPrintable(b: byte) { 0x21 <= b <= 0x7e }

  function FirstUnprintable(s: bytes, from: nat): (r: Option<nat>)
    ensures r.None? ==> forall i | from <= i < |s| :: IsPrintable(s[i])
    ensures r.Some? ==> from <= r.value < |s| && !IsPrintable(s[r.value]) && forall i | from <= i < r.value :: IsPrintable(s[i])
    decreases |s| - from
  {
    if from >= |s| then None else if !IsPrintable(s[from]) then Some(from) else FirstUnprintable(s, from + 1)
  }

  function Validate(r: TokenRequest): Option<TokenExchangeError> {
    if r.code == [] then Some(EmptyCode)
    else if |r.code| > MAX_CODE_BYTES then Some(CodeTooLong(|r.code|))
    else
      match FirstUnprintable(r.code, 0)
      case Some(i) => Some(CodeNotPrintable(i))
      case None =>
        if |r.codeVerifier| != CODE_VERIFIER_LEN || !Spelled(r.codeVerifier)
        then Some(MalformedCodeVerifier) else None
  }

  /** Acceptance and refusal, for every request, in the order the checks are made. */
  lemma ValidatesExactly(r: TokenRequest)
    ensures Validate(r) == None <==>
            && 1 <= |r.code| <= 1024 && (forall i | 0 <= i < |r.code| :: 0x21 <= r.code[i] <= 0x7e)
            && |r.codeVerifier| == 43 && forall i | 0 <= i < 43 :: IsUrlLetter(r.codeVerifier[i])
    ensures r.code == [] ==> Validate(r) == Some(EmptyCode)
    ensures |r.code| > 1024 ==> Validate(r) == Some(CodeTooLong(|r.code|))
    ensures 1 <= |r.code| <= 1024 ==>
              forall k | 0 <= k < |r.code| && !(0x21 <= r.code[k] <= 0x7e) && (forall i | 0 <= i < k :: 0x21 <= r.code[i] <= 0x7e) ::
                Validate(r) == Some(CodeNotPrintable(k))
    ensures 1 <= |r.code| <= 1024 && (forall i | 0 <= i < |r.code| :: 0x21 <= r.code[i] <= 0x7e) &&
            !(|r.codeVerifier| == 43 && forall i | 0 <= i < 43 :: IsUrlLetter(r.codeVerifier[i])) ==>
              Validate(r) == Some(MalformedCodeVerifier)
  {
  }

  /** A letter, a digit, a hyphen or an underscore, by its byte. */
  predicate IsUrlLetter(b: byte) { 65 <= b <= 90 || 97 <= b <= 122 || 48 <= b <= 57 || b == 45 || b == 95 }

  /** The verifier a client derives from its authorization; the hash is not interpreted. */
  function CodeVerifier(sha256: bytes -> Record.bytes32, digest: Record.bytes32, nonce: Record.bytes32): bytes {
    Encode(sha256(digest + nonce))
  }

  /** A derived verifier has 43 letters of the alphabet, is never refused, and spells
      its hash: a request with one is valid exactly when its code is. */
  lemma DerivedVerifierIsValid(sha256: bytes -> Record.bytes32, digest: Record.bytes32, nonce: Record.bytes32, code: bytes)
    ensures var verifier := CodeVerifier(sha256, digest, nonce);
            && |verifier| == CODE_VERIFIER_LEN && Decode(verifier) == Some(sha256(digest + nonce))
            && (Validate(TokenRequest(code, verifier)).None? <==>
                  0 < |code| <= MAX_CODE_BYTES && forall i | 0 <= i < |code| :: IsPrintable(code[i]))
  {
    hide Encode;
    EncodedLength(sha256(digest + nonce));
    DecodesBack(sha256(digest + nonce));
  }
}
