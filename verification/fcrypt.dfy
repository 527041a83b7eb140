/** The encrypt and decrypt pipelines of task_4/fcrypt.py, with key import and
    file I/O left to the caller: encrypt takes the public key object and the
    plaintext bytes and returns the envelope text written to the output file;
    decrypt takes the private key object and the envelope text and returns the
    plaintext bytes written to the output file. Randomness comes in as `Entropy`. */
module Fcrypt {
  import opened Results
  import opened Primitives
  import Envelope

  /** The two random sources encrypt reads: `os.urandom` for the session key, and
      pycryptodome's `get_random_bytes`, from which the EAX nonce is drawn first and
      the OAEP padding seed next. */
  datatype Entropy = Entropy(os: Stream, lib: Stream)

  /** The abstract primitives the pipelines are written against. */
  datatype Crypto = Crypto(eax: Eax, oaep: Oaep)

  datatype Error =
    | EnvelopeFailure(envelope: Envelope.EnvelopeError)   // Message.from_json raised
    | CipherFailure(crypto: CryptoError)                 // PKCS1_OAEP or AES raised

  /** `urandom(16)`: a 128-bit session key. */
  const SessionKeyLength: nat := 16

  function SessionKey(entropy: Entropy): (key: Bytes)
    ensures |key| == SessionKeyLength && IsAesKey(key)
  {
    Draw(entropy.os, 0, SessionKeyLength)
  }

  /** The nonce `AES.new(session_key, AES.MODE_EAX)` draws. */
  function EaxNonce(entropy: Entropy): (nonce: Bytes)
    ensures |nonce| == EaxNonceLength
  {
    Draw(entropy.lib, 0, EaxNonceLength)
  }

  /** The seed OAEP padding draws after the nonce. */
  function OaepSeed(entropy: Entropy): (seed: Bytes)
    ensures |seed| == HashLength
  {
    Draw(entropy.lib, EaxNonceLength, HashLength)
  }

  /** The `Message` encrypt builds. It fails only when the RSA modulus is too short
      for OAEP to wrap 16 bytes. Otherwise the fields hold, in their roles: a
      ciphertext of the plaintext's length and a tag that open under the session key
      and the stored nonce to the plaintext; the fresh EAX nonce; and, under the
      name `sessionKey`, the OAEP wrapping of the 16-byte session key under the
      public key. */
  function Seal(crypto: Crypto, pub: PublicKey, plaintext: Bytes, entropy: Entropy)
    : (r: Result<Envelope.Message, Error>)
    ensures r.Success? <==> SessionKeyLength <= OaepCapacity(ModulusBytes(pub.n))
    ensures r.Failure? ==> r.error == CipherFailure(PlaintextTooLong)
    ensures r.Success? ==>
      && |r.value.ciphertext| == |plaintext|
      && r.value.nonce == EaxNonce(entropy)
      && DecryptAndVerify(crypto.eax, SessionKey(entropy), r.value.nonce, r.value.ciphertext, r.value.tag)
         == Success(plaintext)
      && r.value.sessionKey == crypto.oaep.wrap(pub, OaepSeed(entropy), SessionKey(entropy))
  {
    var sessionKey := SessionKey(entropy);
    var nonce := EaxNonce(entropy);
    var sealed := EncryptAndDigest(crypto.eax, sessionKey, nonce, plaintext);
    EaxRoundTrip(crypto.eax, sessionKey, nonce, plaintext);
    match OaepEncrypt(crypto.oaep, pub, OaepSeed(entropy), sessionKey)
    case Failure(e) => Failure(CipherFailure(e))
    case Success(wrapped) => Success(Envelope.Message(sealed.0, sealed.1, nonce, wrapped))
  }

  /** `encrypt`: the envelope text, which reads back as the sealed message. */
  function Encrypt(crypto: Crypto, pub: PublicKey, plaintext: Bytes, entropy: Entropy)
    : (r: Result<string, Error>)
    ensures r.Success? <==> Seal(crypto, pub, plaintext, entropy).Success?
    ensures r.Success? ==> Envelope.FromJson(r.value) == Success(Seal(crypto, pub, plaintext, entropy).value)
  {
    match Seal(crypto, pub, plaintext, entropy)
    case Failure(e) => Failure(e)
    case Success(m) =>
      Envelope.FromJsonToJson(m);
      Success(Envelope.ToJson(m))
  }

  /** `decrypt`: read the envelope, unwrap the `sessionKey` field with the private
      key, then open `ciphertext` and `tag` under that key and the stored `nonce`.
      Fails closed: plaintext comes back only from a well-formed envelope whose
      wrapped key unwraps to an AES key under which the tag verifies, and it is then
      the plaintext that seals to exactly the stored ciphertext and tag. */
  function Decrypt(crypto: Crypto, priv: PrivateKey, text: string): (r: Result<Bytes, Error>)
    ensures r.Success? ==>
      && Envelope.FromJson(text).Success?
      && var m := Envelope.FromJson(text).value;
         && OaepDecrypt(crypto.oaep, priv, m.sessionKey).Success?
         && var key := OaepDecrypt(crypto.oaep, priv, m.sessionKey).value;
            && IsAesKey(key) && |m.nonce| > 0
            && crypto.eax.mac(key, m.nonce, m.ciphertext) == m.tag
            && EncryptAndDigest(crypto.eax, key, m.nonce, r.value) == (m.ciphertext, m.tag)
  {
    match Envelope.FromJson(text)
    case Failure(e) => Failure(EnvelopeFailure(e))
    case Success(m) =>
      match OaepDecrypt(crypto.oaep, priv, m.sessionKey)
      case Failure(e) => Failure(CipherFailure(e))
      case Success(key) =>
        match DecryptAndVerify(crypto.eax, key, m.nonce, m.ciphertext, m.tag)
        case Failure(e) => Failure(CipherFailure(e))
        case Success(plaintext) => Success(plaintext)
  }

  /** Round trip: when the modulus is long enough to wrap a session key, encryption
      succeeds and, under the OAEP laws, the private key of the pair decrypts the
      result back to the original plaintext, the empty one included. */
  lemma DecryptEncrypt(crypto: Crypto, pub: PublicKey, priv: PrivateKey, plaintext: Bytes, entropy: Entropy)
    requires OaepLaws(crypto.oaep) && crypto.oaep.matches(pub, priv)
    requires SessionKeyLength <= OaepCapacity(ModulusBytes(pub.n))
    ensures Encrypt(crypto, pub, plaintext, entropy).Success?
    ensures Decrypt(crypto, priv, Encrypt(crypto, pub, plaintext, entropy).value) == Success(plaintext)
  {
    var m := Seal(crypto, pub, plaintext, entropy).value;
    var sessionKey := SessionKey(entropy);
    OaepRoundTrip(crypto.oaep, pub, priv, OaepSeed(entropy), sessionKey);
    assert OaepDecrypt(crypto.oaep, priv, m.sessionKey) == Success(sessionKey);
  }

  /** The decrypt side decides on the tag alone once the envelope parses and the
      key unwraps: a tag that does not verify is an authentication error and no
      plaintext. */
  lemma DecryptRejectsBadTag(crypto: Crypto, priv: PrivateKey, text: string)
    requires Envelope.FromJson(text).Success?
    requires var m := Envelope.FromJson(text).value;
             && OaepDecrypt(crypto.oaep, priv, m.sessionKey).Success?
             && var key := OaepDecrypt(crypto.oaep, priv, m.sessionKey).value;
                IsAesKey(key) && |m.nonce| > 0 && crypto.eax.mac(key, m.nonce, m.ciphertext) != m.tag
    ensures Decrypt(crypto, priv, text) == Failure(CipherFailure(MacCheckFailed))
  {
  }

  /** Tampering: take an honest envelope, keep its wrapped key and change the
      ciphertext, tag or nonce so that the tag no longer verifies under the session
      key. The matching private key then refuses it with an authentication error
      and releases nothing. */
  lemma TamperedEnvelopeRejected(crypto: Crypto, pub: PublicKey, priv: PrivateKey, plaintext: Bytes,
                                 entropy: Entropy, forged: Envelope.Message)
    requires OaepLaws(crypto.oaep) && crypto.oaep.matches(pub, priv)
    requires Seal(crypto, pub, plaintext, entropy).Success?
    requires forged.sessionKey == Seal(crypto, pub, plaintext, entropy).value.sessionKey
    requires |forged.nonce| > 0
    requires crypto.eax.mac(SessionKey(entropy), forged.nonce, forged.ciphertext) != forged.tag
    ensures Decrypt(crypto, priv, Envelope.ToJson(forged)) == Failure(CipherFailure(MacCheckFailed))
  {
    Envelope.FromJsonToJson(forged);
    OaepRoundTrip(crypto.oaep, pub, priv, OaepSeed(entropy), SessionKey(entropy));
    DecryptRejectsBadTag(crypto, priv, Envelope.ToJson(forged));
  }
}
