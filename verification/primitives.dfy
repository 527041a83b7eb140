/** The cryptographic primitives task_4/fcrypt.py calls, with the mathematics left
    abstract.

    AES-EAX is modelled by its structure: the ciphertext is the plaintext XORed
    with a CTR keystream that depends on the key and the nonce, and the tag is a MAC
    over the ciphertext. The block cipher behind both is an uninterpreted function
    value, so nothing about AES itself is assumed, and the inverse property of EAX
    is proved here rather than assumed.

    RSA with OAEP padding is an uninterpreted pair of functions; the one property
    the pipeline relies on, that unwrapping with the matching private key inverts
    wrapping, is the predicate `OaepLaws`, which results about the pipeline take as
    a hypothesis. */
module Primitives {
  import opened Results

  /** An endless source of random bytes, such as `os.urandom` or
      `Crypto.Random.get_random_bytes`: byte `i` is what the `i`-th draw returns. */
  type Stream = nat -> bv8

  /** `n` bytes taken from `src` starting at draw number `from`. */
  function Draw(src: Stream, from: nat, n: nat): (r: Bytes)
    ensures |r| == n
  {
    seq(n, i requires 0 <= i < n => src(from + i))
  }

  datatype CryptoError =
    | InvalidKeyLength           // AES.new: key is not 16, 24 or 32 bytes
    | EmptyNonce                 // AES.new in EAX mode: the nonce is empty
    | MacCheckFailed             // decrypt_and_verify: the tag does not match
    | PlaintextTooLong           // PKCS1_OAEP encrypt: message longer than k - 2*hLen - 2
    | IncorrectCiphertextLength  // PKCS1_OAEP decrypt: ciphertext is not k bytes
    | IncorrectDecryption        // PKCS1_OAEP decrypt: padding check failed

  // --------------------------------------------------------------- AES-EAX

  /** AES-EAX with the block cipher abstract. `keystream(key, nonce, i)` is byte `i`
      of the CTR keystream EAX starts from the OMAC of the nonce; `mac(key, nonce,
      c)` is the tag EAX computes over ciphertext `c` with an empty header. */
  datatype Eax = Eax(keystream: (Bytes, Bytes, nat) -> bv8, mac: (Bytes, Bytes, Bytes) -> Bytes)

  /** The length of the nonce `AES.new(key, AES.MODE_EAX)` draws when none is given. */
  const EaxNonceLength: nat := 16

  /** The key lengths AES accepts. */
  predicate IsAesKey(key: Bytes) {
    |key| == 16 || |key| == 24 || |key| == 32
  }

  /** CTR mode: XOR with the keystream. */
  function Ctr(eax: Eax, key: Bytes, nonce: Bytes, data: Bytes): (r: Bytes)
    ensures |r| == |data|
  {
    seq(|data|, i requires 0 <= i < |data| => data[i] ^ eax.keystream(key, nonce, i))
  }

  /** CTR mode is its own inverse. */
  lemma CtrInvolution(eax: Eax, key: Bytes, nonce: Bytes, data: Bytes)
    ensures Ctr(eax, key, nonce, Ctr(eax, key, nonce, data)) == data
  {
    var once := Ctr(eax, key, nonce, data);
    var twice := Ctr(eax, key, nonce, once);
    forall i | 0 <= i < |data| ensures twice[i] == data[i] {
      var k := eax.keystream(key, nonce, i);
      assert twice[i] == (data[i] ^ k) ^ k;
    }
  }

  /** `cipher.encrypt_and_digest(plaintext)`: ciphertext of the plaintext's length
      that deciphers back to it, and the tag over that ciphertext. */
  function EncryptAndDigest(eax: Eax, key: Bytes, nonce: Bytes, plaintext: Bytes): (r: (Bytes, Bytes))
    requires IsAesKey(key) && |nonce| > 0
    ensures |r.0| == |plaintext|
    ensures Ctr(eax, key, nonce, r.0) == plaintext
    ensures eax.mac(key, nonce, r.0) == r.1
  {
    var ciphertext := Ctr(eax, key, nonce, plaintext);
    CtrInvolution(eax, key, nonce, plaintext);
    (ciphertext, eax.mac(key, nonce, ciphertext))
  }

  /** `AES.new(key, AES.MODE_EAX, nonce=nonce).decrypt_and_verify(ciphertext, tag)`.
      Fails closed: plaintext comes back only when the tag verifies, and then it is
      exactly the plaintext that seals to this ciphertext and tag. */
  function DecryptAndVerify(eax: Eax, key: Bytes, nonce: Bytes, ciphertext: Bytes, tag: Bytes)
    : (r: Result<Bytes, CryptoError>)
    ensures r.Success? <==> IsAesKey(key) && |nonce| > 0 && eax.mac(key, nonce, ciphertext) == tag
    ensures r.Success? ==> EncryptAndDigest(eax, key, nonce, r.value) == (ciphertext, tag)
    ensures IsAesKey(key) && |nonce| > 0 && eax.mac(key, nonce, ciphertext) != tag ==> r == Failure(MacCheckFailed)
    ensures |nonce| == 0 ==> r == Failure(EmptyNonce)
    ensures |nonce| > 0 && !IsAesKey(key) ==> r == Failure(InvalidKeyLength)
  {
    if |nonce| == 0 then Failure(EmptyNonce)
    else if !IsAesKey(key) then Failure(InvalidKeyLength)
    else if eax.mac(key, nonce, ciphertext) != tag then Failure(MacCheckFailed)
    else
      CtrInvolution(eax, key, nonce, ciphertext);
      Success(Ctr(eax, key, nonce, ciphertext))
  }

  /** Opening what was sealed under the same key and nonce gives the plaintext. */
  lemma EaxRoundTrip(eax: Eax, key: Bytes, nonce: Bytes, plaintext: Bytes)
    requires IsAesKey(key) && |nonce| > 0
    ensures var sealed := EncryptAndDigest(eax, key, nonce, plaintext);
            DecryptAndVerify(eax, key, nonce, sealed.0, sealed.1) == Success(plaintext)
  {
    CtrInvolution(eax, key, nonce, plaintext);
  }

  // -------------------------------------------------------------- RSA-OAEP

  /** RSA keys as `RSA.import_key` yields them. The two kinds are distinct types,
      so a public key can never be handed to the unwrapping side. */
  datatype PublicKey = PublicKey(n: nat, e: nat)
  datatype PrivateKey = PrivateKey(n: nat, d: nat)

  /** `k`, the length of the modulus in bytes. */
  function ModulusBytes(n: nat): (k: nat)
    ensures n < 256 ==> k <= 1
    ensures n >= 256 ==> k >= 2
  {
    if n == 0 then 0 else 1 + ModulusBytes(n / 256)
  }

  /** The digest length of SHA-1, the hash `PKCS1_OAEP.new` uses by default. */
  const HashLength: nat := 20

  /** The longest message OAEP can wrap under a modulus of `k` bytes. */
  function OaepCapacity(k: nat): int {
    k - 2 * HashLength - 2
  }

  /** RSA-OAEP with the arithmetic and the padding abstract: `wrap(pub, seed, m)`
      is the ciphertext for message `m` under padding randomness `seed`;
      `unwrap(priv, c)` is the message, `None` when the padding check fails;
      `matches(pub, priv)` says the two keys form a pair. */
  datatype Oaep = Oaep(
    wrap: (PublicKey, Bytes, Bytes) -> Bytes,
    unwrap: (PrivateKey, Bytes) -> Option<Bytes>,
    matches: (PublicKey, PrivateKey) -> bool)

  /** What RSA-OAEP guarantees and the pipeline relies on: ciphertexts are `k`
      bytes, key pairs share their modulus, and the private key of a pair unwraps
      whatever its public key wrapped. */
  ghost predicate OaepLaws(oaep: Oaep) {
    && (forall pub, seed, m :: |oaep.wrap(pub, seed, m)| == ModulusBytes(pub.n))
    && (forall pub, priv :: oaep.matches(pub, priv) ==> pub.n == priv.n)
    && (forall pub, priv, seed, m ::
          oaep.matches(pub, priv) && |m| <= OaepCapacity(ModulusBytes(pub.n))
          ==> oaep.unwrap(priv, oaep.wrap(pub, seed, m)) == Some(m))
  }

  /** `PKCS1_OAEP.new(pub).encrypt(m)`, drawing its padding seed from `seed`. */
  function OaepEncrypt(oaep: Oaep, pub: PublicKey, seed: Bytes, m: Bytes): (r: Result<Bytes, CryptoError>)
    ensures r.Failure? <==> |m| > OaepCapacity(ModulusBytes(pub.n))
    ensures r.Failure? ==> r.error == PlaintextTooLong
    ensures OaepLaws(oaep) && r.Success? ==> |r.value| == ModulusBytes(pub.n)
    ensures OaepLaws(oaep) && r.Success? ==>
              forall priv :: oaep.matches(pub, priv) ==> OaepDecrypt(oaep, priv, r.value) == Success(m)
  {
    if |m| > OaepCapacity(ModulusBytes(pub.n)) then Failure(PlaintextTooLong)
    else Success(oaep.wrap(pub, seed, m))
  }

  /** `PKCS1_OAEP.new(priv).decrypt(c)`. */
  function OaepDecrypt(oaep: Oaep, priv: PrivateKey, c: Bytes): (r: Result<Bytes, CryptoError>)
    ensures r.Success? ==> |c| == ModulusBytes(priv.n) && oaep.unwrap(priv, c) == Some(r.value)
  {
    var k := ModulusBytes(priv.n);
    if |c| != k || k < HashLength + 2 then Failure(IncorrectCiphertextLength)
    else match oaep.unwrap(priv, c)
      case None => Failure(IncorrectDecryption)
      case Some(m) => Success(m)
  }

  /** Under the laws, the private key of a pair recovers what the public key
      wrapped. */
  lemma OaepRoundTrip(oaep: Oaep, pub: PublicKey, priv: PrivateKey, seed: Bytes, m: Bytes)
    requires OaepLaws(oaep) && oaep.matches(pub, priv)
    requires OaepEncrypt(oaep, pub, seed, m).Success?
    ensures OaepDecrypt(oaep, priv, OaepEncrypt(oaep, pub, seed, m).value) == Success(m)
  {
    var c := oaep.wrap(pub, seed, m);
    assert |c| == ModulusBytes(priv.n);
    assert oaep.unwrap(priv, c) == Some(m);
  }

  // ----------------------------------------------- the laws can be satisfied

  function Zeros(n: nat): (r: Bytes)
    ensures |r| == n
  {
    seq(n, _ => 0)
  }

  /** A stand-in padding: the message, a 1 byte and zeros up to `k` bytes. */
  function MarkerPad(k: nat, m: Bytes): (r: Bytes)
    ensures |r| == k
  {
    if |m| < k then m + [1] + Zeros(k - |m| - 1) else Zeros(k)
  }

  function MarkerUnpad(c: Bytes): Option<Bytes> {
    if |c| == 0 then None
    else if c[|c| - 1] == 0 then MarkerUnpad(c[..|c| - 1])
    else if c[|c| - 1] == 1 then Some(c[..|c| - 1])
    else None
  }

  lemma {:induction false} MarkerUnpadPad(m: Bytes, z: nat)
    ensures MarkerUnpad(m + [1] + Zeros(z)) == Some(m)
    decreases z
  {
    var c := m + [1] + Zeros(z);
    if z == 0 {
      assert c == m + [1];
      assert c[..|c| - 1] == m;
    } else {
      assert c[|c| - 1] == 0;
      assert c[..|c| - 1] == m + [1] + Zeros(z - 1);
      MarkerUnpadPad(m, z - 1);
    }
  }

  /** A toy instance in which a key pair is a public and a private key over the
      same modulus: the hypothesis `OaepLaws` can be met with key pairs present. */
  function ToyOaep(): Oaep {
    Oaep((pub: PublicKey, seed: Bytes, m: Bytes) => MarkerPad(ModulusBytes(pub.n), m),
         (priv: PrivateKey, c: Bytes) => MarkerUnpad(c),
         (pub: PublicKey, priv: PrivateKey) => pub.n == priv.n)
  }

  lemma ToyOaepLaws()
    ensures OaepLaws(ToyOaep())
    ensures ToyOaep().matches(PublicKey(3233, 17), PrivateKey(3233, 2753))
  {
    var oaep := ToyOaep();
    forall pub, priv, seed, m | oaep.matches(pub, priv) && |m| <= OaepCapacity(ModulusBytes(pub.n))
      ensures oaep.unwrap(priv, oaep.wrap(pub, seed, m)) == Some(m)
    {
      var k := ModulusBytes(pub.n);
      MarkerUnpadPad(m, k - |m| - 1);
    }
  }
}
