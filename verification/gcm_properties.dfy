/** What the AES-GCM wrapper guarantees on top of a valid primitive: output
    layout and capacity, authentication, the round trip in both directions,
    error precedence, tamper detection, and the agreement of the two suites. */
module GcmProperties {
  import opened Wrappers
  import opened Bytes
  import opened Limits
  import opened Aes
  import opened AeadPrimitive
  import opened GcmMode

  /** Both operations report a wrong key or nonce length before looking at
      anything else, and report it the same way. */
  lemma SizeErrorsComeFirst(c: Cipher, order: SizeCheckOrder, key: Bytes, nonce: Bytes, aad: Bytes,
                            plaintext: Bytes, input: Bytes)
    requires !SizesFit(c, key, nonce)
    ensures AesGcmEncrypt(c, order, key, nonce, aad, plaintext).Failure?
    ensures AesGcmEncrypt(c, order, key, nonce, aad, plaintext) == AesGcmDecrypt(c, order, key, nonce, aad, input)
  {
  }

  /** With valid sizes, encryption succeeds exactly when the plaintext fits the
      output buffer together with its tag, and otherwise fails with `Alloc`.
      A successful output is the primitive's ciphertext followed by the
      16-byte tag. */
  lemma EncryptOutcome(c: Cipher, order: SizeCheckOrder, key: Bytes, nonce: Bytes, aad: Bytes, plaintext: Bytes)
    requires Valid(c.primitive)
    requires SizesFit(c, key, nonce)
    requires |aad| <= MAX_INPUT_SIZE
    ensures var r := AesGcmEncrypt(c, order, key, nonce, aad, plaintext);
            && (r.Success? <==> |plaintext| + GCM_TAG_SIZE <= ENCRYPT_CAPACITY)
            && (r.Failure? ==> r.error == Alloc)
            && (r.Success? ==>
                  && |r.value| == |plaintext| + GCM_TAG_SIZE
                  && r.value[..|plaintext|] == c.primitive.cipher(key, nonce, aad, plaintext)
                  && r.value[|plaintext|..] == c.primitive.tag(key, nonce, aad, r.value[..|plaintext|]))
  {
  }

  /** With valid sizes and an input of a length the buffers can hold, decryption
      succeeds exactly when the trailing 16 bytes are the tag of the rest, and
      otherwise fails with `Decryption`; a success is as long as the input
      without its tag. */
  lemma DecryptAuthenticates(c: Cipher, order: SizeCheckOrder, key: Bytes, nonce: Bytes, aad: Bytes, input: Bytes)
    requires Valid(c.primitive)
    requires SizesFit(c, key, nonce)
    requires |aad| <= MAX_INPUT_SIZE
    requires GCM_TAG_SIZE <= |input| <= DECRYPT_CAPACITY + GCM_TAG_SIZE
    ensures var r := AesGcmDecrypt(c, order, key, nonce, aad, input);
            var ciphertext := input[..|input| - GCM_TAG_SIZE];
            && (r.Success? <==> input[|input| - GCM_TAG_SIZE..] == c.primitive.tag(key, nonce, aad, ciphertext))
            && (r.Failure? ==> r.error == Decryption)
            && (r.Success? ==> |r.value| == |input| - GCM_TAG_SIZE)
  {
  }

  /** Decrypting what encryption produced, with the same key, nonce and
      associated data, gives back the plaintext. */
  lemma RoundTrip(c: Cipher, order: SizeCheckOrder, key: Bytes, nonce: Bytes, aad: Bytes, plaintext: Bytes)
    requires Valid(c.primitive)
    requires SizesFit(c, key, nonce)
    requires |aad| <= MAX_INPUT_SIZE
    requires |plaintext| <= MAX_PLAINTEXT_SIZE
    ensures AesGcmEncrypt(c, order, key, nonce, aad, plaintext).Success?
    ensures AesGcmDecrypt(c, order, key, nonce, aad, AesGcmEncrypt(c, order, key, nonce, aad, plaintext).value)
            == Success(plaintext)
  {
  }

  /** Every input that decrypts is exactly the encryption of its plaintext: no
      other byte string authenticates to the same message. */
  lemma DecryptThenEncrypt(c: Cipher, order: SizeCheckOrder, key: Bytes, nonce: Bytes, aad: Bytes, input: Bytes)
    requires Valid(c.primitive)
    requires |aad| <= MAX_INPUT_SIZE
    requires AesGcmDecrypt(c, order, key, nonce, aad, input).Success?
    ensures AesGcmEncrypt(c, order, key, nonce, aad, AesGcmDecrypt(c, order, key, nonce, aad, input).value)
            == Success(input)
  {
  }

  /** Changing one byte of a valid encryption never makes decryption return the
      original plaintext; changing a tag byte always makes it fail with
      `Decryption`. */
  lemma TamperingDetected(c: Cipher, order: SizeCheckOrder, key: Bytes, nonce: Bytes, aad: Bytes,
                          plaintext: Bytes, i: nat)
    requires Valid(c.primitive)
    requires SizesFit(c, key, nonce)
    requires |aad| <= MAX_INPUT_SIZE
    requires |plaintext| <= MAX_PLAINTEXT_SIZE
    requires i < |plaintext| + GCM_TAG_SIZE
    ensures AesGcmEncrypt(c, order, key, nonce, aad, plaintext).Success?
    ensures var sealed := AesGcmEncrypt(c, order, key, nonce, aad, plaintext).value;
            var r := AesGcmDecrypt(c, order, key, nonce, aad, Tamper(sealed, i));
            && (r.Failure? ==> r.error == Decryption)
            && (r.Success? ==> r.value != plaintext)
            && (i >= |plaintext| ==> r == Failure(Decryption))
  {
  }

  /** The suite matters only through whether the key has its length: given the
      same primitive, two suites that agree on that behave identically. */
  lemma SuitesDifferOnlyInKeySize(s1: Suite, s2: Suite, p: Primitive, order: SizeCheckOrder,
                                  key: Bytes, nonce: Bytes, aad: Bytes, data: Bytes)
    requires (|key| == s1.KeySize()) == (|key| == s2.KeySize())
    ensures AesGcmEncrypt(Cipher(s1, p), order, key, nonce, aad, data)
            == AesGcmEncrypt(Cipher(s2, p), order, key, nonce, aad, data)
    ensures AesGcmDecrypt(Cipher(s1, p), order, key, nonce, aad, data)
            == AesGcmDecrypt(Cipher(s2, p), order, key, nonce, aad, data)
  {
  }

  /** The AES-128 and AES-256 entry points both round-trip for keys of their
      own length. */
  lemma EntryPointsRoundTrip(b: Backend, key: Bytes, nonce: Bytes, aad: Bytes, plaintext: Bytes)
    requires Valid(b.aes128) && Valid(b.aes256)
    requires |nonce| == GCM_NONCE_SIZE
    requires |aad| <= MAX_INPUT_SIZE
    requires |plaintext| <= MAX_PLAINTEXT_SIZE
    ensures |key| == KEY128_SIZE ==>
              && Aes128GcmEncrypt(b, key, nonce, aad, plaintext).Success?
              && Aes128GcmDecrypt(b, key, nonce, aad, Aes128GcmEncrypt(b, key, nonce, aad, plaintext).value)
                 == Success(plaintext)
    ensures |key| == KEY256_SIZE ==>
              && Aes256GcmEncrypt(b, key, nonce, aad, plaintext).Success?
              && Aes256GcmDecrypt(b, key, nonce, aad, Aes256GcmEncrypt(b, key, nonce, aad, plaintext).value)
                 == Success(plaintext)
  {
  }

  /** A successful decryption through either entry point fits the declared
      plaintext buffer. */
  lemma EntryPointsDecryptFit(b: Backend, key: Bytes, nonce: Bytes, aad: Bytes, input: Bytes)
    requires Valid(b.aes128) && Valid(b.aes256)
    ensures Aes128GcmDecrypt(b, key, nonce, aad, input).Success? ==>
              |Aes128GcmDecrypt(b, key, nonce, aad, input).value| == |input| - GCM_TAG_SIZE <= MAX_PLAINTEXT_SIZE
    ensures Aes256GcmDecrypt(b, key, nonce, aad, input).Success? ==>
              |Aes256GcmDecrypt(b, key, nonce, aad, input).value| == |input| - GCM_TAG_SIZE <= MAX_PLAINTEXT_SIZE
  {
  }
}
