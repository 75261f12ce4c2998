/** AES-GCM encryption and decryption with the calling convention of NIST
    SP 800-38D: validated key and nonce lengths, output laid out as
    `ciphertext || tag` in a fixed-capacity buffer, and plaintext returned only
    after the tag authenticates the input. */
module GcmMode {
  import opened Wrappers
  import opened Bytes
  import opened Limits
  import opened Aes
  import opened AeadPrimitive
  import HeaplessVec

  /** The two supported cipher suites, which differ only in key length. */
  datatype Suite = Aes128Gcm | Aes256Gcm {

    function KeySize(): (r: nat)
      ensures r == KEY128_SIZE || r == KEY256_SIZE
      ensures r == KEY128_SIZE <==> this == Aes128Gcm
    {
      match this
      case Aes128Gcm => KEY128_SIZE
      case Aes256Gcm => KEY256_SIZE
    }

    function NonceSize(): (r: nat)
      ensures r == GCM_NONCE_SIZE
    {
      GCM_NONCE_SIZE
    }

    function TagSize(): (r: nat)
      ensures r == GCM_TAG_SIZE
    {
      GCM_TAG_SIZE
    }
  }

  /** A suite together with the primitive implementing it: the type parameter
      of the generic functions. */
  datatype Cipher = Cipher(suite: Suite, primitive: Primitive)

  /** Capacity of the encryption output buffer: the largest ciphertext plus its tag. */
  const ENCRYPT_CAPACITY: nat := MAX_CIPHERTEXT_SIZE + GCM_TAG_SIZE

  /** Capacity of the decryption output buffer: the largest plaintext. */
  const DECRYPT_CAPACITY: nat := MAX_PLAINTEXT_SIZE

  /** Key and nonce have exactly the lengths the suite requires. */
  predicate SizesFit(c: Cipher, key: Bytes, nonce: Bytes) {
    |key| == c.suite.KeySize() && |nonce| == c.suite.NonceSize()
  }

  /** Generic AES-GCM encryption: `ciphertext || tag`, or the first error met. */
  function AesGcmEncrypt(c: Cipher, order: SizeCheckOrder, key: Bytes, nonce: Bytes, aad: Bytes, plaintext: Bytes)
    : (r: Result<Bytes, Error>)
    ensures |key| != c.suite.KeySize() && |nonce| == c.suite.NonceSize() ==> r == Failure(InvalidKeySize)
    ensures |key| == c.suite.KeySize() && |nonce| != c.suite.NonceSize() ==> r == Failure(InvalidIvSize)
    ensures !SizesFit(c, key, nonce) ==> r.Failure? && (r.error == InvalidKeySize || r.error == InvalidIvSize)
    // a plaintext too large for the buffer is refused before the primitive runs
    ensures SizesFit(c, key, nonce) && |plaintext| > ENCRYPT_CAPACITY ==> r == Failure(Alloc)
    ensures r.Success? ==>
              && SizesFit(c, key, nonce)
              && !c.primitive.sealRefuses(key, nonce, aad, plaintext)
              && |r.value| <= ENCRYPT_CAPACITY
              && var ciphertext := c.primitive.cipher(key, nonce, aad, plaintext);
                 r.value == ciphertext + c.primitive.tag(key, nonce, aad, ciphertext)
    ensures r.Failure? && r.error == Encryption ==> c.primitive.sealRefuses(key, nonce, aad, plaintext)
    ensures r.Failure? ==> r.error != InvalidBufferSize && r.error != Decryption
  {
    var _ :- CheckSizes(order, key, nonce, c.suite.KeySize(), c.suite.NonceSize());
    var buffer :- HeaplessVec.ExtendFromSlice(HeaplessVec.New(ENCRYPT_CAPACITY), plaintext).ToResult(Alloc);
    var sealed :- EncryptInPlaceDetached(c.primitive, key, nonce, aad, buffer.items).ToResult(Encryption);
    var (ciphertext, tag) := sealed;
    // the primitive rewrites the same buffer in place
    var output :- HeaplessVec.ExtendFromSlice(buffer.(items := ciphertext), tag).ToResult(Alloc);
    Success(output.items)
  }

  /** Generic AES-GCM decryption of `ciphertext || tag`: the plaintext, or the
      first error met. */
  function AesGcmDecrypt(c: Cipher, order: SizeCheckOrder, key: Bytes, nonce: Bytes, aad: Bytes, input: Bytes)
    : (r: Result<Bytes, Error>)
    ensures |key| != c.suite.KeySize() && |nonce| == c.suite.NonceSize() ==> r == Failure(InvalidKeySize)
    ensures |key| == c.suite.KeySize() && |nonce| != c.suite.NonceSize() ==> r == Failure(InvalidIvSize)
    ensures !SizesFit(c, key, nonce) ==> r.Failure? && (r.error == InvalidKeySize || r.error == InvalidIvSize)
    ensures SizesFit(c, key, nonce) && |input| < c.suite.TagSize() ==> r == Failure(InvalidBufferSize)
    // an over-long ciphertext is refused whatever its tag
    ensures SizesFit(c, key, nonce) && |input| > DECRYPT_CAPACITY + c.suite.TagSize() ==> r == Failure(Alloc)
    ensures r.Success? ==>
              && SizesFit(c, key, nonce)
              && c.suite.TagSize() <= |input| <= DECRYPT_CAPACITY + c.suite.TagSize()
              && var ciphertext := input[..|input| - c.suite.TagSize()];
                 && input[|input| - c.suite.TagSize()..] == c.primitive.tag(key, nonce, aad, ciphertext)
                 && r.value == c.primitive.decipher(key, nonce, aad, ciphertext)
    ensures r.Failure? ==> r.error != Encryption
  {
    var _ :- CheckSizes(order, key, nonce, c.suite.KeySize(), c.suite.NonceSize());
    if |input| < c.suite.TagSize() then Failure(InvalidBufferSize)
    else
      var (ciphertext, tag) := SplitAt(input, |input| - c.suite.TagSize());
      var buffer :- HeaplessVec.ExtendFromSlice(HeaplessVec.New(DECRYPT_CAPACITY), ciphertext).ToResult(Alloc);
      var plaintext :- DecryptInPlaceDetached(c.primitive, key, nonce, aad, buffer.items, tag).ToResult(Decryption);
      // the primitive rewrites the same buffer in place
      Success(buffer.(items := plaintext).items)
  }

  /** The primitives behind the public entry points, and the order in which
      the parent module checks sizes. */
  datatype Backend = Backend(checkOrder: SizeCheckOrder, aes128: Primitive, aes256: Primitive)

  /** AES-128-GCM encryption entry point. */
  function Aes128GcmEncrypt(b: Backend, key: Bytes, nonce: Bytes, aad: Bytes, plaintext: Bytes)
    : (r: Result<Bytes, Error>)
    ensures |key| != KEY128_SIZE && |nonce| == GCM_NONCE_SIZE ==> r == Failure(InvalidKeySize)
    ensures |key| == KEY128_SIZE && |nonce| != GCM_NONCE_SIZE ==> r == Failure(InvalidIvSize)
    ensures r.Success? ==> |r.value| <= MAX_PLAINTEXT_SIZE + GCM_TAG_SIZE
  {
    AesGcmEncrypt(Cipher(Aes128Gcm, b.aes128), b.checkOrder, key, nonce, aad, plaintext)
  }

  /** AES-128-GCM decryption entry point. */
  function Aes128GcmDecrypt(b: Backend, key: Bytes, nonce: Bytes, aad: Bytes, ciphertext: Bytes)
    : (r: Result<Bytes, Error>)
    ensures |key| != KEY128_SIZE && |nonce| == GCM_NONCE_SIZE ==> r == Failure(InvalidKeySize)
    ensures |key| == KEY128_SIZE && |nonce| != GCM_NONCE_SIZE ==> r == Failure(InvalidIvSize)
    ensures |key| == KEY128_SIZE && |nonce| == GCM_NONCE_SIZE && |ciphertext| < GCM_TAG_SIZE ==> r == Failure(InvalidBufferSize)
    ensures r.Success? ==> GCM_TAG_SIZE <= |ciphertext| <= MAX_PLAINTEXT_SIZE + GCM_TAG_SIZE
  {
    AesGcmDecrypt(Cipher(Aes128Gcm, b.aes128), b.checkOrder, key, nonce, aad, ciphertext)
  }

  /** AES-256-GCM encryption entry point. */
  function Aes256GcmEncrypt(b: Backend, key: Bytes, nonce: Bytes, aad: Bytes, plaintext: Bytes)
    : (r: Result<Bytes, Error>)
    ensures |key| != KEY256_SIZE && |nonce| == GCM_NONCE_SIZE ==> r == Failure(InvalidKeySize)
    ensures |key| == KEY256_SIZE && |nonce| != GCM_NONCE_SIZE ==> r == Failure(InvalidIvSize)
    ensures r.Success? ==> |r.value| <= MAX_PLAINTEXT_SIZE + GCM_TAG_SIZE
  {
    AesGcmEncrypt(Cipher(Aes256Gcm, b.aes256), b.checkOrder, key, nonce, aad, plaintext)
  }

  /** AES-256-GCM decryption entry point. */
  function Aes256GcmDecrypt(b: Backend, key: Bytes, nonce: Bytes, aad: Bytes, ciphertext: Bytes)
    : (r: Result<Bytes, Error>)
    ensures |key| != KEY256_SIZE && |nonce| == GCM_NONCE_SIZE ==> r == Failure(InvalidKeySize)
    ensures |key| == KEY256_SIZE && |nonce| != GCM_NONCE_SIZE ==> r == Failure(InvalidIvSize)
    ensures |key| == KEY256_SIZE && |nonce| == GCM_NONCE_SIZE && |ciphertext| < GCM_TAG_SIZE ==> r == Failure(InvalidBufferSize)
    ensures r.Success? ==> GCM_TAG_SIZE <= |ciphertext| <= MAX_PLAINTEXT_SIZE + GCM_TAG_SIZE
  {
    AesGcmDecrypt(Cipher(Aes256Gcm, b.aes256), b.checkOrder, key, nonce, aad, ciphertext)
  }
}
