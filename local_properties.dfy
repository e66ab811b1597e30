/** Properties of Paseto::Local: which gate of `decrypt` fires for which
    input and what it never looks at, that both directions use the same
    associated data, how the decoded payload is split, and that a token
    `encrypt` made is decrypted back to its message. */
module LocalProperties {
  import opened Ruby
  import opened Collaborators
  import opened Local

  /** A token without the header prefix is refused with BadHeader whatever the
      collaborators do: the footer check, the decoder and the AEAD are never
      consulted. */
  lemma HeaderRejectionConsultsNothing(c1: Collaborators, c2: Collaborators, cfg: Cipher, token: string)
    requires !StartsWith(token, HEADER)
    ensures Decrypt(c1, cfg, token) == BadHeader && Decrypt(c2, cfg, token) == BadHeader
  {
  }

  /** The header gate looks at indices 0 to 7 and no more: whatever
      character stands at index 8, a '.' or not, gets past it. */
  lemma HeaderGateIgnoresNinthCharacter(separator: char, rest: string)
    ensures StartsWith(HEADER + [separator] + rest, HEADER)
  {
  }

  /** A footer the check refuses ends `decrypt` with FooterFailure; whatever
      decoder and AEAD stand behind it do not matter. */
  lemma FooterRejectionNeverDecodes(
    c: Collaborators, cfg: Cipher, token: string,
    decoder: Option<string> -> Option<Bytes>, aead: (Bytes, Bytes, Bytes, Bytes) -> OpenOutcome)
    requires StartsWith(token, HEADER)
    requires c.removeFooter(token, cfg.footer).None?
    ensures Decrypt(c.(decode64 := decoder, open := aead), cfg, token) == FooterFailure
  {
  }

  /** Every rejection before the AEAD call is independent of the AEAD: swapping
      in any other `open` gives the same failure, which is never Ok, NonceError
      or AuthError. */
  lemma RejectionNeverOpens(c: Collaborators, cfg: Cipher, token: string, aead: (Bytes, Bytes, Bytes, Bytes) -> OpenOutcome)
    requires Parse(c, cfg, token).Reject?
    ensures Decrypt(c.(open := aead), cfg, token) == Decrypt(c, cfg, token)
    ensures Decrypt(c, cfg, token) in {BadHeader, FooterFailure, DecodeFailure, BadMessage}
  {
  }

  /** The payload is read from index 9 (the tenth character) of the
      footer-stripped token on. Two tokens whose stripped forms agree from
      index 9 on decrypt alike, whatever their indices 0 to 8 hold: the
      character at index 8, after the header, is never checked to be '.'. */
  lemma NinthCharacterNeverChecked(c: Collaborators, cfg: Cipher, t1: string, t2: string, m1: string, m2: string)
    requires StartsWith(t1, HEADER) && StartsWith(t2, HEADER)
    requires c.removeFooter(t1, cfg.footer) == Some(m1) && c.removeFooter(t2, cfg.footer) == Some(m2)
    requires |m1| >= PAYLOAD_OFFSET && |m2| >= PAYLOAD_OFFSET && m1[PAYLOAD_OFFSET..] == m2[PAYLOAD_OFFSET..]
    ensures Decrypt(c, cfg, t1) == Decrypt(c, cfg, t2)
  {
  }

  /** A footer-stripped token too short to hold index 9 makes the payload
      slice `nil`, and `decode64(nil)` raises: the result is DecodeFailure and
      neither the split nor the AEAD is reached. */
  lemma ShortStrippedTokenIsDecodeFailure(c: Collaborators, cfg: Cipher, token: string, stripped: string)
    requires Decode64RaisesOnNil(c)
    requires StartsWith(token, HEADER)
    requires c.removeFooter(token, cfg.footer) == Some(stripped) && |stripped| < PAYLOAD_OFFSET
    ensures Decrypt(c, cfg, token) == DecodeFailure
  {
  }

  /** A decoded payload shorter than a nonce is a BadMessage and never reaches
      the AEAD; one of exactly a nonce's length reaches it with an empty
      ciphertext. */
  lemma NonceSplitBoundaries(c: Collaborators, cfg: Cipher, token: string, decoded: Bytes)
    requires DecodedPayload(c, cfg, token) == Some(decoded)
    ensures |decoded| < NONCE_BYTES ==> Parse(c, cfg, token) == Reject(BadMessage)
    ensures |decoded| == NONCE_BYTES ==>
      Parse(c, cfg, token) == Proceed(decoded, [], AdditionalData(c, cfg, decoded))
    ensures |decoded| >= NONCE_BYTES ==>
      Parse(c, cfg, token) == Proceed(decoded[..NONCE_BYTES], decoded[NONCE_BYTES..],
                                      AdditionalData(c, cfg, decoded[..NONCE_BYTES]))
  {
  }

  /** On a token `encrypt` produced, `decrypt` passes every gate and opens
      the AEAD with exactly the nonce, ciphertext and associated data it was
      sealed with: both directions compute the associated data as
      `pre_auth_encode(HEADER, nonce, footer)` over the same nonce and footer. */
  lemma DecryptRecoversEncryptFrame(c: Collaborators, cfg: Cipher, nonce: Bytes, message: Bytes)
    requires |nonce| == NONCE_BYTES
    requires Base64RoundTrips(c) && TokenFramingRoundTrips(c)
    ensures Parse(c, cfg, Encrypt(c, cfg, nonce, message))
         == Proceed(nonce, c.seal(cfg.key, nonce, message, AdditionalData(c, cfg, nonce)),
                    c.pae(HEADER, nonce, cfg.footer))
  {
  }

  /** Round trip: for a valid instance and a nonce of the right size,
      `decrypt(encrypt(message)) == message`. */
  lemma RoundTrip(c: Collaborators, cfg: Cipher, nonce: Bytes, message: Bytes)
    requires ValidCipher(cfg) && |nonce| == NONCE_BYTES
    requires AeadOpensSealed(c) && Base64RoundTrips(c) && TokenFramingRoundTrips(c)
    ensures Decrypt(c, cfg, Encrypt(c, cfg, nonce, message)) == Ok(message)
  {
  }

  /** The framed payload is the nonce, then a ciphertext as long as the
      message, then the 16-byte tag. */
  lemma EncryptedPayloadLength(c: Collaborators, cfg: Cipher, nonce: Bytes, message: Bytes)
    requires ValidCipher(cfg) && |nonce| == NONCE_BYTES
    requires AeadAppendsTag(c)
    ensures |EncryptPayload(c, cfg, nonce, message)| == NONCE_BYTES + |message| + AEAD_TAG_BYTES
  {
  }

  /** With an AEAD that raises its length error only for a wrongly sized
      nonce, `decrypt` never returns NonceError: the split always hands it
      exactly NONCE_BYTES bytes of nonce. */
  lemma NonceErrorUnreachable(c: Collaborators, cfg: Cipher, token: string)
    requires ValidCipher(cfg) && AeadLengthErrorOnlyForNonce(c)
    ensures Decrypt(c, cfg, token) != NonceError
  {
  }

  /** The converse of the round trip. If every ciphertext the AEAD accepts is
      the sealing of the plaintext it returns (as holds for a deterministic
      AEAD such as ChaCha20-Poly1305), then the decoded payload of any token
      `decrypt` accepts is exactly what `encrypt` frames for that token's
      nonce and the returned plaintext. This says nothing about who made the
      token: anyone holding the key can produce such a payload. */
  lemma AcceptedPayloadIsEncryptFrame(c: Collaborators, cfg: Cipher, token: string)
    requires AeadAcceptsOnlySealings(c)
    requires Decrypt(c, cfg, token).Ok?
    ensures Parse(c, cfg, token).Proceed? && |Parse(c, cfg, token).nonce| == NONCE_BYTES
    ensures DecodedPayload(c, cfg, token)
         == Some(EncryptPayload(c, cfg, Parse(c, cfg, token).nonce, Decrypt(c, cfg, token).plaintext))
  {
  }
}
