/** The AES-256-GCM wrapper of src/encryption.rs, seen from the storage layer.

    The block cipher, its authentication tag and the random nonce source are
    foreign code. The model keeps them as an opaque pair of functions, `Aead`,
    and states as a hypothesis, `CipherLaws`, only what the repository's own
    unit tests assert of them: a message decrypts under the key and nonce it
    was encrypted with, and fails under another nonce or another key. */
module Encryption {
  import opened Wrappers

  newtype byte = x: int | 0 <= x < 256

  type Bytes = seq<byte>

  /** Length of an AES-GCM nonce (96 bits); part of the on-disk blob format. */
  const NONCE_SIZE: nat := 12

  /** Length of an AES-256 key. */
  const KEY_SIZE: nat := 32

  type Nonce = s: Bytes | |s| == NONCE_SIZE witness [0, 0, 0, 0, 0, 0, 0, 0, 0, 0, 0, 0]

  type CipherKey = s: Bytes | |s| == KEY_SIZE
    witness [0, 0, 0, 0, 0, 0, 0, 0, 0, 0, 0, 0, 0, 0, 0, 0,
             0, 0, 0, 0, 0, 0, 0, 0, 0, 0, 0, 0, 0, 0, 0, 0]

  /** An authenticated cipher: `seal` encrypts, `open` decrypts and checks the tag. */
  datatype Aead = Aead(
    seal: (CipherKey, Nonce, Bytes) -> Bytes,
    open: (CipherKey, Nonce, Bytes) -> Option<Bytes>)

  /** What the unit tests of the cipher assert, for every key, nonce and message. */
  ghost predicate CipherLaws(aead: Aead) {
    // can_decrypt
    && (forall k: CipherKey, n: Nonce, p: Bytes ::
          aead.open(k, n, aead.seal(k, n, p)) == Some(p))
    // different_nonce_cant_decrypt
    && (forall k: CipherKey, n: Nonce, n': Nonce, p: Bytes ::
          n != n' ==> aead.open(k, n', aead.seal(k, n, p)) == None)
    // different_key_cant_decrypt
    && (forall k: CipherKey, k': CipherKey, n: Nonce, p: Bytes ::
          k != k' ==> aead.open(k', n, aead.seal(k, n, p)) == None)
  }

  /** A toy scheme that writes key and nonce in front of the plaintext; it
      only serves to show that `CipherLaws` can be met. */
  function ToySeal(k: CipherKey, n: Nonce, p: Bytes): Bytes {
    k + n + p
  }

  function ToyOpen(k: CipherKey, n: Nonce, c: Bytes): Option<Bytes> {
    if |c| >= KEY_SIZE + NONCE_SIZE && c[..KEY_SIZE] == k && c[KEY_SIZE..KEY_SIZE + NONCE_SIZE] == n
    then Some(c[KEY_SIZE + NONCE_SIZE..])
    else None
  }

  /** The hypotheses the storage lemmas rest on are consistent. */
  lemma CipherLawsSatisfiable()
    ensures exists aead :: CipherLaws(aead)
  {
    var toy := Aead(ToySeal, ToyOpen);
    forall k: CipherKey, n: Nonce, p: Bytes
      ensures toy.open(k, n, toy.seal(k, n, p)) == Some(p)
    {
      var c := k + n + p;
      assert c[..KEY_SIZE] == k && c[KEY_SIZE..KEY_SIZE + NONCE_SIZE] == n;
      assert c[KEY_SIZE + NONCE_SIZE..] == p;
    }
    forall k: CipherKey, n: Nonce, n': Nonce, p: Bytes | n != n'
      ensures toy.open(k, n', toy.seal(k, n, p)) == None
    {
      var c := k + n + p;
      assert c[KEY_SIZE..KEY_SIZE + NONCE_SIZE] == n;
    }
    forall k: CipherKey, k': CipherKey, n: Nonce, p: Bytes | k != k'
      ensures toy.open(k', n, toy.seal(k, n, p)) == None
    {
      var c := k + n + p;
      assert c[..KEY_SIZE] == k;
    }
    assert CipherLaws(toy);
  }

  /** `Cipher`: the AES context built from one key. */
  datatype Cipher = Cipher(aead: Aead, key: CipherKey)

  datatype EncryptedMessage = EncryptedMessage(nonce: Nonce, ciphertext: Bytes)

  datatype DecryptError = DecryptError

  /** `Cipher::encrypt`; the nonce, drawn from the OS random source in
      password-cli, is a parameter here. */
  function Encrypt(cipher: Cipher, nonce: Nonce, plaintext: Bytes): (msg: EncryptedMessage)
    ensures msg.nonce == nonce
    ensures CipherLaws(cipher.aead) ==> Decrypt(cipher, msg.ciphertext, msg.nonce) == Ok(plaintext)
  {
    EncryptedMessage(nonce, cipher.aead.seal(cipher.key, nonce, plaintext))
  }

  /** `Cipher::decrypt`: all or nothing. */
  function Decrypt(cipher: Cipher, ciphertext: Bytes, nonce: Nonce): (r: Result<Bytes, DecryptError>)
    ensures r.Ok? <==> cipher.aead.open(cipher.key, nonce, ciphertext).Some?
    ensures r.Ok? ==> cipher.aead.open(cipher.key, nonce, ciphertext) == Some(r.value)
  {
    match cipher.aead.open(cipher.key, nonce, ciphertext)
    case Some(p) => Ok(p)
    case None => Err(DecryptError)
  }

  /** A message does not decrypt under a nonce other than its own. */
  lemma DecryptOtherNonce(cipher: Cipher, nonce: Nonce, other: Nonce, plaintext: Bytes)
    requires CipherLaws(cipher.aead) && other != nonce
    ensures Decrypt(cipher, Encrypt(cipher, nonce, plaintext).ciphertext, other) == Err(DecryptError)
  {
  }

  /** A message does not decrypt under a key other than its own. */
  lemma DecryptOtherKey(cipher: Cipher, other: Cipher, nonce: Nonce, plaintext: Bytes)
    requires CipherLaws(cipher.aead) && other.aead == cipher.aead && other.key != cipher.key
    ensures Decrypt(other, Encrypt(cipher, nonce, plaintext).ciphertext, nonce) == Err(DecryptError)
  {
  }
}
