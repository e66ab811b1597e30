/** What Paseto::Local calls but does not define: the ChaCha20-Poly1305 AEAD
    of section 2.8 of RFC 8439 (as wrapped by RbNaCl's
    ChaCha20Poly1305IETF), the Pre-Authentication Encoding of the PASETO
    protocol draft (draft-paragon-paseto-rfc, section 2.2), base64url, the
    shared footer check and the shared token assembler. None of their bodies
    is modelled: each is a field of a `Collaborators` value of function type,
    and what the proofs need of them is stated as predicates on that value,
    which the lemmas that rely on them take as preconditions. */
module Collaborators {
  import opened Ruby

  /** RbNaCl::AEAD::ChaCha20Poly1305IETF.key_bytes: a 256-bit key. */
  const AEAD_KEY_BYTES: nat := 32
  /** RbNaCl::AEAD::ChaCha20Poly1305IETF.nonce_bytes: the 96-bit IETF nonce. */
  const AEAD_NONCE_BYTES: nat := 12
  /** The Poly1305 tag the AEAD appends to every ciphertext. */
  const AEAD_TAG_BYTES: nat := 16

  /** How the AEAD's decrypt can end: the plaintext, or one of the errors
      RbNaCl raises (RbNaCl::LengthError, RbNaCl::CryptoError, anything else). */
  datatype OpenOutcome = OpenOk(plaintext: Bytes) | LengthErr | CryptoErr | OtherErr

  /** The external functions. The key is an explicit argument of `seal` and
      `open`; in Ruby it is held by the `@aead` object built from it. A footer
      is a Ruby string or `nil`. `decode64` receives `nil` when the slice it
      is applied to is `nil`, and yields `None` when it raises. */
  datatype Collaborators = Collaborators(
    seal: (Bytes, Bytes, Bytes, Bytes) -> Bytes,             // @aead.encrypt(nonce, message, aad) under key
    open: (Bytes, Bytes, Bytes, Bytes) -> OpenOutcome,       // @aead.decrypt(nonce, ciphertext, aad) under key
    pae: (string, Bytes, Option<string>) -> Bytes,           // Paseto.pre_auth_encode(header, nonce, footer)
    encode64: Bytes -> string,                               // the base64url Token#to_message writes
    decode64: Option<string> -> Option<Bytes>,               // Paseto.decode64
    removeFooter: (string, Option<string>) -> Option<string>, // Paseto.validate_and_remove_footer
    toMessage: (string, Bytes, Option<string>) -> string     // Paseto::Token.new(header, payload, footer).to_message
  )

  /** AEAD correctness: opening what was sealed under the same key, nonce
      and associated data gives back the message. */
  ghost predicate AeadOpensSealed(c: Collaborators) {
    forall key, nonce, message, aad ::
      |key| == AEAD_KEY_BYTES && |nonce| == AEAD_NONCE_BYTES ==>
        c.open(key, nonce, c.seal(key, nonce, message, aad), aad) == OpenOk(message)
  }

  /** The sealed output is the ciphertext (as long as the message) followed
      by the 16-byte tag. */
  ghost predicate AeadAppendsTag(c: Collaborators) {
    forall key, nonce, message, aad ::
      |key| == AEAD_KEY_BYTES && |nonce| == AEAD_NONCE_BYTES ==>
        |c.seal(key, nonce, message, aad)| == |message| + AEAD_TAG_BYTES
  }

  /** RbNaCl raises its LengthError only for a nonce of the wrong size. */
  ghost predicate AeadLengthErrorOnlyForNonce(c: Collaborators) {
    forall key, nonce, ciphertext, aad ::
      |key| == AEAD_KEY_BYTES && |nonce| == AEAD_NONCE_BYTES ==>
        !c.open(key, nonce, ciphertext, aad).LengthErr?
  }

  /** Whatever `open` accepts is the sealing of the plaintext it returns,
      under the same key, nonce and associated data. A deterministic AEAD such
      as ChaCha20-Poly1305 has this property exactly. It does not say that
      forging is hard: it only ties an accepted ciphertext to its plaintext. */
  ghost predicate AeadAcceptsOnlySealings(c: Collaborators) {
    forall key, nonce, ciphertext, aad ::
      c.open(key, nonce, ciphertext, aad).OpenOk? ==>
        ciphertext == c.seal(key, nonce, c.open(key, nonce, ciphertext, aad).plaintext, aad)
  }

  /** `decode64` inverts the base64url that tokens are written with. */
  ghost predicate Base64RoundTrips(c: Collaborators) {
    forall payload :: c.decode64(Some(c.encode64(payload))) == Some(payload)
  }

  /** `decode64(nil)` raises (Ruby's base64 decoding cannot be applied to
      `nil`). */
  ghost predicate Decode64RaisesOnNil(c: Collaborators) {
    c.decode64(None) == None
  }

  /** A token assembled from (header, payload, footer) starts with the header,
      and checking it against that same footer strips the footer segment,
      leaving `header.base64(payload)`. */
  ghost predicate TokenFramingRoundTrips(c: Collaborators) {
    forall header, payload, footer ::
      && StartsWith(c.toMessage(header, payload, footer), header)
      && c.removeFooter(c.toMessage(header, payload, footer), footer)
           == Some(header + "." + c.encode64(payload))
  }
}
