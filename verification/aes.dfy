/** The items of the parent `aes` module that the GCM wrapper uses: the size
    constants of the supported suites, the error taxonomy and `check_sizes`. */
module Aes {
  import opened Wrappers
  import opened Bytes

  /** AES-128 key length in bytes (FIPS 197). */
  const KEY128_SIZE: nat := 16
  /** AES-256 key length in bytes (FIPS 197). */
  const KEY256_SIZE: nat := 32
  /** The 96-bit IV of section 8.2 of NIST SP 800-38D, in bytes. */
  const GCM_NONCE_SIZE: nat := 12
  /** The 128-bit tag of section 5.2.1.2 of NIST SP 800-38D, in bytes. */
  const GCM_TAG_SIZE: nat := 16

  /** The errors the AES operations report. */
  datatype Error =
    | InvalidKeySize     // key length differs from the suite's key size
    | InvalidIvSize      // nonce length differs from the suite's nonce size
    | InvalidBufferSize  // decryption input shorter than a tag
    | Alloc              // a fixed-capacity output buffer is too small
    | Encryption         // the block-cipher primitive refused to encrypt
    | Decryption         // the tag did not authenticate the input

  /** Which of the two lengths `check_sizes` looks at first. Its body is not
      part of this model, so every result here holds for both orders. */
  datatype SizeCheckOrder = KeyFirst | NonceFirst

  /** Checks the key and nonce lengths against the sizes a suite requires. A
      wrong key alone is reported as `InvalidKeySize`, a wrong nonce alone as
      `InvalidIvSize`; when both are wrong it is one of the two. */
  function CheckSizes(order: SizeCheckOrder, key: Bytes, nonce: Bytes, keySize: nat, nonceSize: nat)
    : (r: Result<(), Error>)
    ensures r.Success? <==> |key| == keySize && |nonce| == nonceSize
    ensures |key| != keySize && |nonce| == nonceSize ==> r == Failure(InvalidKeySize)
    ensures |key| == keySize && |nonce| != nonceSize ==> r == Failure(InvalidIvSize)
    ensures r.Failure? ==> r.error == InvalidKeySize || r.error == InvalidIvSize
  {
    var keyOk := |key| == keySize;
    var nonceOk := |nonce| == nonceSize;
    match order
    case KeyFirst =>
      if !keyOk then Failure(InvalidKeySize) else if !nonceOk then Failure(InvalidIvSize) else Success(())
    case NonceFirst =>
      if !nonceOk then Failure(InvalidIvSize) else if !keyOk then Failure(InvalidKeySize) else Success(())
  }
}
