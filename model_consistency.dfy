/** The assumptions the lemmas about Paseto::Local make of their collaborators
    are jointly satisfiable, so none of those lemmas holds vacuously. The
    witness is a deliberately trivial stand-in (the "tag" is sixteen zero
    bytes, the "base64" maps each byte to the character with that code, the
    footer is ignored); it says nothing about the real collaborators beyond
    the stated assumptions. */
module ModelConsistency {
  import opened Ruby
  import opened Collaborators

  function ZeroTag(): Bytes { seq(AEAD_TAG_BYTES, _ => 0 as byte) }

  function ToyOpen(key: Bytes, nonce: Bytes, ciphertext: Bytes, aad: Bytes): OpenOutcome {
    if |nonce| != AEAD_NONCE_BYTES then LengthErr
    else if |ciphertext| < AEAD_TAG_BYTES || ciphertext[|ciphertext| - AEAD_TAG_BYTES..] != ZeroTag() then CryptoErr
    else OpenOk(ciphertext[..|ciphertext| - AEAD_TAG_BYTES])
  }

  function ToyEncode(payload: Bytes): string {
    seq(|payload|, i requires 0 <= i < |payload| => (payload[i] as int) as char)
  }

  function ToyDecode(text: Option<string>): Option<Bytes> {
    match text
    case None => None
    case Some(s) =>
      if forall i :: 0 <= i < |s| ==> (s[i] as int) < 256
      then Some(seq(|s|, i requires 0 <= i < |s| && (s[i] as int) < 256 => (s[i] as int) as byte))
      else None
  }

  function Toy(): Collaborators {
    Collaborators(
      (key, nonce, message, aad) => message + ZeroTag(),
      ToyOpen,
      (header, nonce, footer) => nonce,
      ToyEncode,
      ToyDecode,
      (token, footer) => Some(token),
      (header, payload, footer) => header + "." + ToyEncode(payload))
  }

  lemma ToyAeadIsCorrect()
    ensures AeadOpensSealed(Toy()) && AeadAppendsTag(Toy())
  {
  }

  lemma ToyAeadAcceptsOnlySealings()
    ensures AeadLengthErrorOnlyForNonce(Toy()) && AeadAcceptsOnlySealings(Toy())
  {
  }

  lemma ToyFramingRoundTrips()
    ensures Base64RoundTrips(Toy()) && TokenFramingRoundTrips(Toy())
  {
    var c := Toy();
    forall payload ensures c.decode64(Some(c.encode64(payload))) == Some(payload) {
      var text := ToyEncode(payload);
      assert forall i :: 0 <= i < |text| ==> (text[i] as int) < 256;
      assert ToyDecode(Some(text)).value == payload;
    }
    forall header: string, payload, footer ensures StartsWith(c.toMessage(header, payload, footer), header) {
      var token := header + "." + ToyEncode(payload);
      assert token[..|header|] == header;
    }
  }

  lemma CollaboratorAssumptionsAreSatisfiable()
    ensures exists c ::
      && AeadOpensSealed(c) && AeadAppendsTag(c) && AeadLengthErrorOnlyForNonce(c) && AeadAcceptsOnlySealings(c)
      && Base64RoundTrips(c) && Decode64RaisesOnNil(c) && TokenFramingRoundTrips(c)
  {
    ToyAeadIsCorrect();
    ToyAeadAcceptsOnlySealings();
    ToyFramingRoundTrips();
    var c := Toy();
    assert AeadOpensSealed(c) && AeadAppendsTag(c) && AeadLengthErrorOnlyForNonce(c) && AeadAcceptsOnlySealings(c)
      && Base64RoundTrips(c) && Decode64RaisesOnNil(c) && TokenFramingRoundTrips(c);
  }
}
