# Paseto::Local in Dafny

A model of `Paseto::Local` from the paseto.rb gem: the symmetric "v2.local"
token cipher. A `Local` instance holds an AEAD key and an optional footer,
both fixed at construction.

- `encrypt(message)` draws a nonce and computes the associated data
  `pre_auth_encode("v2.local", nonce, footer)`. It seals the message with
  ChaCha20-Poly1305 (section 2.8 of RFC 8439, 12-byte nonce) and frames
  `nonce + ciphertext` as a token under header `"v2.local"` with the
  instance's footer.
- `decrypt(token)` runs a fixed sequence of gates, each of which can end it:
  1. the header prefix;
  2. footer validation and stripping;
  3. base64 decoding of everything from index 9 (the tenth character) on;
  4. splitting off a 12-byte nonce.

  It then opens the AEAD with the recomputed associated data and maps the
  AEAD's errors to `NonceError`, `AuthError` or `BadMessageError`.

The cipher object never changes after construction, so the model is pure:

- A cipher instance is the datatype `Cipher`.
- `Encrypt` and `Decrypt` are functions.
- Raised exceptions are variants of `DecryptResult`.

Everything `local.rb` calls but does not define is a field of type function
in a `Collaborators` value, passed to every operation:

- the AEAD's seal and open;
- `Paseto.pre_auth_encode`;
- base64url encoding and `Paseto.decode64`;
- `Paseto.validate_and_remove_footer`;
- `Paseto::Token#to_message`.

What the proofs assume of these is written as predicates in
`collaborators.dfy` (for example `AeadOpensSealed` and
`TokenFramingRoundTrips`). Each lemma takes the ones it needs as
preconditions. `ModelConsistency.CollaboratorAssumptionsAreSatisfiable`
gives a trivial concrete `Collaborators` value that meets all of them, so
no lemma holds vacuously.

Files:

- `ruby.dfy`: the Ruby semantics the code relies on. This covers `nil`,
  `start_with?`, `s[start, length]` and `s[start..-1]`, with their exact
  `nil` and empty-string boundaries.
- `collaborators.dfy`: the RbNaCl constants, the AEAD's outcomes, the
  collaborator record and the assumptions.
- `local.dfy`: the cipher.
- `local_properties.dfy`: the properties that relate several calls.
- `model_consistency.dfy`: the satisfiability witness.

Two consequences of the code as written:

- Failures of `Paseto.decode64` are not rescued at `lib/paseto/local.rb:41`.
  This includes `decode64(nil)`, which happens when the footer-stripped token
  is shorter than nine characters (it has no index 9). Such failures surface
  as `DecodeFailure`: whatever `decode64` raises propagates unchanged. The
  `nil` case rests on the stated assumption `Decode64RaisesOnNil`.
- `decoded_payload[0, NONCE_BYTES]` is never `nil`, because it starts at 0.
  So only the ciphertext slice `decoded_payload[NONCE_BYTES..-1]` can trigger
  the `nil` check at `lib/paseto/local.rb:45`. Whenever the AEAD is reached,
  the nonce is exactly 12 bytes.

## Model

| member | source | states |
|---|---|---|
| `Ruby.Slice` | lib/paseto/local.rb:42 | `s[start, length]` is `nil` exactly when `start` is past the end, so from 0 it is never `nil`. Otherwise its elements are those of `s` from `start` on, at most `length` of them. It has exactly `length` when that many remain, and otherwise runs to the end of `s` |
| `Ruby.SliceFrom` | lib/paseto/local.rb:41-43 | `s[start..-1]` is `nil` exactly when `start` is past the end. Otherwise it is the suffix that completes `s[..start]`, which is empty when `start` is exactly the end |
| `Ruby.StartsWith` | lib/paseto/local.rb:38 | The element-by-element `start_with?` holds exactly when the prefix fits and equals that many leading elements |
| `Local.New` | lib/paseto/local.rb:22-25 | Construction succeeds exactly for a 32-byte key, and the instance keeps the given key and footer |
| `Local.SplitNonce` | lib/paseto/local.rb:42-45 | The nil check fires exactly when the payload is shorter than `NONCE_BYTES`. Otherwise the nonce is exactly `NONCE_BYTES` long and `nonce + ciphertext` is the payload. A payload of exactly `NONCE_BYTES` splits into itself and an empty ciphertext |
| `Local.EncryptPayload` | lib/paseto/local.rb:29-34 | The framed payload splits back into the nonce and the AEAD sealing of the message under the key, the nonce and `pre_auth_encode(HEADER, nonce, footer)` |
| `Local.Encrypt` | lib/paseto/local.rb:27-35 | The token is `to_message` of header `"v2.local"`, the instance footer and a payload that splits into the nonce and the sealed message |
| `Local.DecodedPayload` | lib/paseto/local.rb:38-41 | There is no decoded payload when the header prefix is missing or footer validation fails. Otherwise it is `decode64` of the footer-stripped token from index 9 on, or `decode64(nil)` when the stripped token is shorter than nine characters |
| `Local.Parse` | lib/paseto/local.rb:37-45 | Gates before the AEAD. Its BadMessage and Proceed clauses are stated through `DecodedPayload`. BadHeader holds exactly when the header prefix is missing. FooterFailure holds exactly when the header is present and footer validation fails. BadMessage holds exactly when the decoded payload is shorter than a nonce. A rejection is never Ok, NonceError or AuthError. Passing hands the AEAD a `NONCE_BYTES` nonce, the rest of the decoded payload, and `pre_auth_encode(HEADER, nonce, footer)` |
| `Local.ClassifyOpen` | lib/paseto/local.rb:47-55 | A length error becomes exactly NonceError and a crypto error exactly AuthError. Any other error is BadMessage. Ok is returned exactly on the AEAD's success, carrying the AEAD's plaintext unchanged |
| `Local.Decrypt` | lib/paseto/local.rb:37-56 | BadHeader holds exactly when the header prefix is missing. Ok only comes from an AEAD open of the parsed nonce, ciphertext and AAD that returned that plaintext. NonceError and AuthError only arise after every gate has passed. A gate's rejection is returned unchanged. Once every gate has passed, the result is the classification of the AEAD's outcome: its plaintext on success, and NonceError, AuthError or BadMessage on a length, crypto or other error |
| `LocalProperties.HeaderRejectionConsultsNothing` | lib/paseto/local.rb:38 | Without the header prefix the result is BadHeader for every choice of collaborators, so no later stage is consulted |
| `LocalProperties.HeaderGateIgnoresNinthCharacter` | lib/paseto/local.rb:38 | The header gate passes `"v2.local"` followed by any character at index 8, not only `'.'` |
| `LocalProperties.FooterRejectionNeverDecodes` | lib/paseto/local.rb:40-41 | A refused footer gives FooterFailure whatever decoder and AEAD are used |
| `LocalProperties.RejectionNeverOpens` | lib/paseto/local.rb:38-48 | A token rejected before the AEAD call gets the same result with any AEAD. That result is BadHeader, FooterFailure, DecodeFailure or BadMessage |
| `LocalProperties.NinthCharacterNeverChecked` | lib/paseto/local.rb:40-41 | Two tokens whose footer-stripped forms agree from index 9 (the tenth character) on decrypt alike, whatever indices 0 to 8 hold, so the separator at index 8 is never checked |
| `LocalProperties.ShortStrippedTokenIsDecodeFailure` | lib/paseto/local.rb:40-41 | If `decode64(nil)` raises, a footer-stripped token shorter than nine characters ends `decrypt` with DecodeFailure, before the split and the AEAD |
| `LocalProperties.NonceSplitBoundaries` | lib/paseto/local.rb:42-48 | A decoded payload shorter than `NONCE_BYTES` is BadMessage. One of exactly `NONCE_BYTES` reaches the AEAD with an empty ciphertext. A longer one reaches it with its first `NONCE_BYTES` bytes as nonce and the rest as ciphertext |
| `LocalProperties.DecryptRecoversEncryptFrame` | lib/paseto/local.rb:27-60 | On a token `encrypt` made, `decrypt` passes every gate. It opens the AEAD with the same nonce, the same ciphertext and the same associated data `pre_auth_encode(HEADER, nonce, footer)` that `encrypt` sealed with |
| `LocalProperties.RoundTrip` | lib/paseto/local.rb:27-56 | Under AEAD correctness, base64 round trip and footer acceptance, `decrypt(encrypt(m)) == Ok(m)` for the same instance |
| `LocalProperties.EncryptedPayloadLength` | lib/paseto/local.rb:32-34 | The framed payload is `NONCE_BYTES` plus the message length plus 16 bytes long |
| `LocalProperties.NonceErrorUnreachable` | lib/paseto/local.rb:42-50 | If the AEAD raises a length error only for a wrongly sized nonce, `decrypt` never returns NonceError |
| `Local.AdditionalData` | lib/paseto/local.rb:58-60 | The associated data of both directions. `LocalProperties.DecryptRecoversEncryptFrame` proves that `decrypt` recomputes, for the nonce it parses, the same `pre_auth_encode(HEADER, nonce, footer)` that `encrypt` sealed with |
| `LocalProperties.AcceptedPayloadIsEncryptFrame` | lib/paseto/local.rb:40-55 | Assume the AEAD accepts only sealings of the plaintext it returns, as a deterministic AEAD does. Then the decoded payload of any token `decrypt` accepts is exactly what `encrypt` frames for that token's nonce and the returned plaintext. This is the converse of the round trip; it says nothing about who made the token |

## Left out

- `generate_aead_key` and `generate_nonce` (lib/paseto/local.rb:10-16) use a secure random source. The nonce is a parameter of `Encrypt` instead.
- Encrypt requires a nonce of `NONCE_BYTES` bytes. This is what `generate_nonce` always gives, so the AEAD's length error on a wrong-size nonce inside `encrypt` is not modelled.
- `from_encode64_key` (lib/paseto/local.rb:18-20) is a thin wrapper over `Paseto.decode64`, whose body is not part of this model.
- The bodies of `Paseto.decode64`, `Paseto.validate_and_remove_footer`, `Paseto::Token#to_message` and `Paseto.pre_auth_encode` are not part of this model. They are uninterpreted fields of `Collaborators`. In particular, the PAE layout and its injectivity are neither modelled nor used.
- The RbNaCl ChaCha20-Poly1305 implementation is left out as a foreign library. Only the assumptions in `collaborators.dfy` are used. No assumption says forging a ciphertext is hard. `AeadAcceptsOnlySealings` only ties an accepted ciphertext to the plaintext it opens to.
- `pre_auth_encode` and the AEAD's `encrypt` are treated as total. An exception escaping from them is not modelled.
- Exception messages are not modelled, nor is which Ruby class `validate_and_remove_footer` or `decode64` raises. Those failures are `FooterFailure` and `DecodeFailure`.
- Ruby slices with a negative start are not modelled; `local.rb` never uses one. Tokens are sequences of characters and payloads sequences of bytes; string encodings are not modelled.
- Timing and side-channel indistinguishability of the failure kinds cannot be expressed in a functional model.
