/** Paseto::Local, the symmetric "v2.local" token cipher: `encrypt` seals a
    message under a fresh nonce with associated data
    `pre_auth_encode(HEADER, nonce, footer)` and frames `nonce + ciphertext`
    as a token; `decrypt` passes a token through a fixed sequence of gates
    (header, footer, base64, nonce split) before opening it with the AEAD and
    classifying the AEAD's failures. The cipher object only holds its key and
    footer, both set once, so it is a value here and both operations are
    functions of it and of the collaborators they call. */
module Local {
  import opened Ruby
  import opened Collaborators

  /** The version and purpose tag every token begins with. */
  const HEADER: string := "v2.local"
  /** Length of the nonce in front of every ciphertext: the AEAD's nonce size. */
  const NONCE_BYTES: nat := AEAD_NONCE_BYTES
  /** Where the payload segment begins in the footer-stripped token (the
      header and the character after it are skipped). */
  const PAYLOAD_OFFSET: nat := 9

  /** What `decrypt` returns or raises. */
  datatype DecryptResult =
    | Ok(plaintext: Bytes)
    | BadHeader      // Paseto::BadHeaderError
    | FooterFailure  // whatever Paseto.validate_and_remove_footer raises
    | DecodeFailure  // whatever Paseto.decode64 raises; local.rb does not rescue it
    | BadMessage     // BadMessageError
    | NonceError     // NonceError
    | AuthError      // AuthError

  /** A cipher instance: the AEAD key and the footer (`nil` by default). */
  datatype Cipher = Cipher(key: Bytes, footer: Option<string>)

  /** A key RbNaCl accepts. */
  predicate ValidCipher(cfg: Cipher) {
    |cfg.key| == AEAD_KEY_BYTES
  }

  /** `Local.new(key, footer)`: building the AEAD raises a length error for a
      key of the wrong size; otherwise the instance keeps key and footer. */
  function New(key: Bytes, footer: Option<string>): (r: Option<Cipher>)
    ensures r.Some? <==> |key| == AEAD_KEY_BYTES
    ensures r.Some? ==> ValidCipher(r.value) && r.value.key == key && r.value.footer == footer
  {
    if |key| == AEAD_KEY_BYTES then Some(Cipher(key, footer)) else None
  }

  /** `additional_data(nonce)`. */
  function AdditionalData(c: Collaborators, cfg: Cipher, nonce: Bytes): Bytes {
    c.pae(HEADER, nonce, cfg.footer)
  }

  /** The two halves of a decoded payload, as `decrypt` takes them apart:
      `nonce = decoded[0, NONCE_BYTES]`, `ciphertext = decoded[NONCE_BYTES..-1]`,
      and `nil` when either is `nil`. */
  function SplitNonce(decoded: Bytes): (r: Option<(Bytes, Bytes)>)
    ensures r.None? <==> |decoded| < NONCE_BYTES
    ensures r.Some? ==> |r.value.0| == NONCE_BYTES && r.value.0 + r.value.1 == decoded
    ensures |decoded| == NONCE_BYTES ==> r == Some((decoded, []))
  {
    var nonce := Slice(decoded, 0, NONCE_BYTES);
    var ciphertext := SliceFrom(decoded, NONCE_BYTES);
    assert decoded[0..|decoded|] == decoded;
    if nonce.None? || ciphertext.None? then None else Some((nonce.value, ciphertext.value))
  }

  /** The payload `encrypt` frames: the nonce followed by the sealed message. */
  function EncryptPayload(c: Collaborators, cfg: Cipher, nonce: Bytes, message: Bytes): (payload: Bytes)
    requires |nonce| == NONCE_BYTES
    ensures SplitNonce(payload) == Some((nonce, c.seal(cfg.key, nonce, message, AdditionalData(c, cfg, nonce))))
  {
    var ciphertext := c.seal(cfg.key, nonce, message, AdditionalData(c, cfg, nonce));
    assert (nonce + ciphertext)[..NONCE_BYTES] == nonce;
    nonce + ciphertext
  }

  /** `encrypt(message)`, with the nonce `generate_nonce` would draw passed in. */
  function Encrypt(c: Collaborators, cfg: Cipher, nonce: Bytes, message: Bytes): (token: string)
    requires |nonce| == NONCE_BYTES
    ensures exists payload ::
      && token == c.toMessage(HEADER, payload, cfg.footer)
      && SplitNonce(payload) == Some((nonce, c.seal(cfg.key, nonce, message, AdditionalData(c, cfg, nonce))))
  {
    c.toMessage(HEADER, EncryptPayload(c, cfg, nonce, message), cfg.footer)
  }

  /** The stages of `decrypt` before the AEAD: either a failure, or the
      nonce, ciphertext and associated data the AEAD is opened with. */
  datatype Gate = Reject(failure: DecryptResult) | Proceed(nonce: Bytes, ciphertext: Bytes, aad: Bytes)

  /** The decoded payload a token carries once its header and footer have
      been checked, or `None` when a gate before the split rejects it. */
  function DecodedPayload(c: Collaborators, cfg: Cipher, token: string): (r: Option<Bytes>)
    ensures !StartsWith(token, HEADER) || c.removeFooter(token, cfg.footer).None? ==> r.None?
    ensures StartsWith(token, HEADER) && c.removeFooter(token, cfg.footer).Some? ==>
      var stripped := c.removeFooter(token, cfg.footer).value;
      && (|stripped| >= PAYLOAD_OFFSET ==> r == c.decode64(Some(stripped[PAYLOAD_OFFSET..])))
      && (|stripped| < PAYLOAD_OFFSET ==> r == c.decode64(None))
  {
    if !StartsWith(token, HEADER) then None
    else match c.removeFooter(token, cfg.footer)
      case None => None
      case Some(computedMsg) => c.decode64(SliceFrom(computedMsg, PAYLOAD_OFFSET))
  }

  /** Header check, footer check, base64 decoding and nonce split, in that
      order, each one stopping the pipeline. */
  function Parse(c: Collaborators, cfg: Cipher, token: string): (g: Gate)
    ensures g == Reject(BadHeader) <==> !StartsWith(token, HEADER)
    ensures g == Reject(FooterFailure) <==> StartsWith(token, HEADER) && c.removeFooter(token, cfg.footer).None?
    ensures g.Reject? ==> g.failure in {BadHeader, FooterFailure, DecodeFailure, BadMessage}
    ensures g == Reject(BadMessage) <==>
      DecodedPayload(c, cfg, token).Some? && |DecodedPayload(c, cfg, token).value| < NONCE_BYTES
    ensures g.Proceed? ==>
      && |g.nonce| == NONCE_BYTES
      && DecodedPayload(c, cfg, token) == Some(g.nonce + g.ciphertext)
      && g.aad == c.pae(HEADER, g.nonce, cfg.footer)
  {
    if !StartsWith(token, HEADER) then Reject(BadHeader)
    else match c.removeFooter(token, cfg.footer)
      case None => Reject(FooterFailure)
      case Some(computedMsg) =>
        match c.decode64(SliceFrom(computedMsg, PAYLOAD_OFFSET))
        case None => Reject(DecodeFailure)
        case Some(decoded) =>
          match SplitNonce(decoded)
          case None => Reject(BadMessage)
          case Some((nonce, ciphertext)) => Proceed(nonce, ciphertext, AdditionalData(c, cfg, nonce))
  }

  /** The `rescue` clauses around the AEAD call. */
  function ClassifyOpen(outcome: OpenOutcome): (r: DecryptResult)
    ensures r.Ok? <==> outcome.OpenOk?
    ensures r.Ok? ==> r.plaintext == outcome.plaintext
    ensures r == NonceError <==> outcome.LengthErr?
    ensures r == AuthError <==> outcome.CryptoErr?
    ensures outcome.OtherErr? ==> r == BadMessage
  {
    match outcome
    case OpenOk(plaintext) => Ok(plaintext)
    case LengthErr => NonceError
    case CryptoErr => AuthError
    case OtherErr => BadMessage
  }

  /** `decrypt(token)`. */
  function Decrypt(c: Collaborators, cfg: Cipher, token: string): (r: DecryptResult)
    ensures r == BadHeader <==> !StartsWith(token, HEADER)
    ensures r.Ok? ==>
      var g := Parse(c, cfg, token);
      g.Proceed? && c.open(cfg.key, g.nonce, g.ciphertext, g.aad) == OpenOk(r.plaintext)
    ensures r == NonceError || r == AuthError ==> Parse(c, cfg, token).Proceed?
    ensures Parse(c, cfg, token).Reject? ==> r == Parse(c, cfg, token).failure
    ensures Parse(c, cfg, token).Proceed? ==>
      var g := Parse(c, cfg, token);
      r == ClassifyOpen(c.open(cfg.key, g.nonce, g.ciphertext, g.aad))
  {
    match Parse(c, cfg, token)
    case Reject(failure) => failure
    case Proceed(nonce, ciphertext, aad) => ClassifyOpen(c.open(cfg.key, nonce, ciphertext, aad))
  }
}
