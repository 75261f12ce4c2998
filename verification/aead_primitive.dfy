/** The AES-GCM primitive of the external `aes_gcm` crate, which this model
    does not compute. A `Primitive` bundles its parts as functions; `Valid`
    states what the wrapper may assume about them: the ciphertext is as long as
    the plaintext, the tag is 16 bytes, deciphering inverts enciphering, and the
    primitive does not refuse a message and associated data of at most
    2^36 - 32 bytes each. */
module AeadPrimitive {
  import opened Wrappers
  import opened Bytes
  import opened Aes
  import Counting

  /** Longest plaintext and associated data the primitive is promised to accept:
      2^39 - 256 bits, the plaintext bound of section 5.2.1.1 of NIST SP 800-38D,
      in bytes. */
  const MAX_INPUT_SIZE: nat := 0x10_0000_0000 - 32

  /** Each function takes (key, nonce, associated data, message). `tag` is
      computed over the ciphertext; the two `Refuses` flags model the
      primitive's own internal failures. */
  datatype Primitive = Primitive(
    cipher: (Bytes, Bytes, Bytes, Bytes) -> Bytes,
    decipher: (Bytes, Bytes, Bytes, Bytes) -> Bytes,
    tag: (Bytes, Bytes, Bytes, Bytes) -> Bytes,
    sealRefuses: (Bytes, Bytes, Bytes, Bytes) -> bool,
    openRefuses: (Bytes, Bytes, Bytes, Bytes) -> bool)

  /** The properties of the real primitive the wrapper relies on. */
  ghost predicate Valid(p: Primitive) {
    && (forall k, n, a, m :: |p.cipher(k, n, a, m)| == |m|)
    && (forall k, n, a, c :: |p.decipher(k, n, a, c)| == |c|)
    && (forall k, n, a, m :: p.decipher(k, n, a, p.cipher(k, n, a, m)) == m)
    && (forall k, n, a, c :: |p.tag(k, n, a, c)| == GCM_TAG_SIZE)
    && (forall k, n, a, m :: |m| <= MAX_INPUT_SIZE && |a| <= MAX_INPUT_SIZE ==> !p.sealRefuses(k, n, a, m))
    && (forall k, n, a, c :: |c| <= MAX_INPUT_SIZE && |a| <= MAX_INPUT_SIZE ==> !p.openRefuses(k, n, a, c))
  }

  /** Encrypts `buffer` in place and returns the rewritten buffer with the
      detached tag, or nothing when the primitive refuses. */
  function EncryptInPlaceDetached(p: Primitive, key: Bytes, nonce: Bytes, aad: Bytes, buffer: Bytes)
    : (r: Option<(Bytes, Bytes)>)
    ensures r.Some? <==> !p.sealRefuses(key, nonce, aad, buffer)
    ensures r.Some? ==> r.value.0 == p.cipher(key, nonce, aad, buffer)
    ensures r.Some? ==> r.value.1 == p.tag(key, nonce, aad, r.value.0)
    // a valid primitive keeps the buffer's length and yields a 16-byte tag
    ensures Valid(p) && r.Some? ==> |r.value.0| == |buffer| && |r.value.1| == GCM_TAG_SIZE
    // and, for a buffer and associated data of at most 2^36 - 32 bytes, it never refuses and opening undoes sealing
    ensures Valid(p) && |buffer| <= MAX_INPUT_SIZE && |aad| <= MAX_INPUT_SIZE ==>
              r.Some? && DecryptInPlaceDetached(p, key, nonce, aad, r.value.0, r.value.1) == Some(buffer)
  {
    if p.sealRefuses(key, nonce, aad, buffer) then None
    else
      var ciphertext := p.cipher(key, nonce, aad, buffer);
      Some((ciphertext, p.tag(key, nonce, aad, ciphertext)))
  }

  /** Decrypts `buffer` in place, returning the plaintext only when `tag` is
      the tag of `buffer` under (key, nonce, aad). */
  function DecryptInPlaceDetached(p: Primitive, key: Bytes, nonce: Bytes, aad: Bytes, buffer: Bytes, tag: Bytes)
    : (r: Option<Bytes>)
    ensures r.Some? <==> !p.openRefuses(key, nonce, aad, buffer) && tag == p.tag(key, nonce, aad, buffer)
    ensures r.Some? ==> r.value == p.decipher(key, nonce, aad, buffer)
    // whatever a valid primitive opens, sealing it again gives back the buffer and the tag
    ensures Valid(p) && |aad| <= MAX_INPUT_SIZE && |buffer| <= MAX_INPUT_SIZE && r.Some? ==>
              && |r.value| == |buffer|
              && !p.sealRefuses(key, nonce, aad, r.value)
              && p.cipher(key, nonce, aad, r.value) == buffer
              && p.tag(key, nonce, aad, p.cipher(key, nonce, aad, r.value)) == tag
  {
    assert Valid(p) ==> p.cipher(key, nonce, aad, p.decipher(key, nonce, aad, buffer)) == buffer by {
      if Valid(p) {
        CipherIsOnto(p, key, nonce, aad, buffer);
      }
    }
    if p.openRefuses(key, nonce, aad, buffer) || tag != p.tag(key, nonce, aad, buffer) then None
    else Some(p.decipher(key, nonce, aad, buffer))
  }

  /** Opening a sealed buffer with its own tag gives back the plaintext. */
  lemma InPlaceRoundTrip(p: Primitive, key: Bytes, nonce: Bytes, aad: Bytes, m: Bytes)
    requires Valid(p)
    requires |m| <= MAX_INPUT_SIZE && |aad| <= MAX_INPUT_SIZE
    ensures var sealed := EncryptInPlaceDetached(p, key, nonce, aad, m);
            && sealed.Some?
            && |sealed.value.0| == |m| && |sealed.value.1| == GCM_TAG_SIZE
            && DecryptInPlaceDetached(p, key, nonce, aad, sealed.value.0, sealed.value.1) == Some(m)
  {
  }

  /** Opening with a valid tag and sealing the result again restores the
      buffer and its tag: the in-place pair is inverse in both directions. */
  lemma InPlaceOpenThenSeal(p: Primitive, key: Bytes, nonce: Bytes, aad: Bytes, buffer: Bytes, tag: Bytes)
    requires Valid(p)
    requires |buffer| <= MAX_INPUT_SIZE && |aad| <= MAX_INPUT_SIZE
    requires DecryptInPlaceDetached(p, key, nonce, aad, buffer, tag).Some?
    ensures EncryptInPlaceDetached(p, key, nonce, aad, DecryptInPlaceDetached(p, key, nonce, aad, buffer, tag).value)
            == Some((buffer, tag))
  {
  }

  /** Every byte string is the ciphertext of its own decipherment: enciphering
      under fixed (key, nonce, aad) is a bijection on the strings of each length. */
  lemma CipherIsOnto(p: Primitive, key: Bytes, nonce: Bytes, aad: Bytes, c: Bytes)
    requires Valid(p)
    ensures p.cipher(key, nonce, aad, p.decipher(key, nonce, aad, c)) == c
  {
    var f := m => p.cipher(key, nonce, aad, m);
    var g := m => p.decipher(key, nonce, aad, m);
    Counting.LeftInverseIsRightInverse(f, g, c);
  }

  /** The assumptions are consistent: some primitive meets them. */
  lemma PrimitivesExist()
    ensures exists p :: Valid(p)
  {
    var p := Primitive(
      (k, n, a, m) => m,
      (k, n, a, c) => c,
      (k, n, a, c) => Zeros(GCM_TAG_SIZE),
      (k, n, a, m) => false,
      (k, n, a, c) => false);
    assert Valid(p);
  }
}
