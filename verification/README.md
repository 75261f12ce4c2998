# AES-GCM framing and validation in sindri, modelled in Dafny

This project models `sindri/src/crypto/aes/gcm_mode.rs` of the sindri
cryptographic service. That file wraps the AES-GCM primitive so that callers
follow the calling convention of NIST SP 800-38D:

- AES-128 and AES-256 keys (FIPS 197).
- A 96-bit nonce (section 8.2 of SP 800-38D).
- A 128-bit tag (section 5.2.1.2 of SP 800-38D).

Encryption checks the key and nonce lengths first. It then returns
`ciphertext || tag` in a fixed-capacity buffer. Decryption makes the same
checks and rejects inputs shorter than a tag. It splits off the trailing 16
bytes as the tag and returns plaintext only when that tag authenticates the
rest. The generic pair is instantiated for AES-128 and for AES-256.

Modules, leaves first:

- `Wrappers` (wrappers.dfy): `Option` and `Result`. `Result` works with `:-`, which plays the part of Rust's `?`.
- `Bytes` (bytes.dfy): the byte type, `SplitAt` (Rust's `split_at`) and `Tamper` (the tests' one-byte corruption).
- `HeaplessVec` (heapless_vec.dfy): the fixed-capacity vector, whose `extend_from_slice` fails without changing anything when the slice does not fit.
- `Limits` (limits.dfy): `MAX_PLAINTEXT_SIZE` and `MAX_CIPHERTEXT_SIZE`.
- `Aes` (aes.dfy): the parent module's size constants, `Error` and `check_sizes`.
- `Counting` (counting.dfy): a counting argument. A length-preserving function with a left inverse is onto each length.
- `AeadPrimitive` (aead_primitive.dfy): the external `aes_gcm` primitive, described abstractly.
- `GcmMode` (gcm_mode.dfy): the generic functions and the four public entry points.
- `GcmProperties` (gcm_properties.dfy): the lemmas.

The block cipher and GHASH come from the external `aes_gcm` crate, which is
not part of this model. Here the primitive is a `Primitive` value made of
functions:

- `cipher` turns a plaintext into a ciphertext.
- `decipher` turns a ciphertext back into a plaintext.
- `tag` computes the tag over the ciphertext.
- `sealRefuses` and `openRefuses` flag the primitive's own internal failures.

All five take the key, the nonce and the associated data as well. The ghost
predicate `AeadPrimitive.Valid` lists what the wrapper may assume about them:

- The ciphertext is as long as the plaintext, and deciphering keeps the length.
- The tag is 16 bytes long.
- Deciphering undoes enciphering.
- Neither side refuses a message and associated data of at most 2^36 − 32 bytes each. That is 2^39 − 256 bits, the plaintext bound in section 5.2.1.1 of SP 800-38D. The same section allows associated data up to 2^64 − 1 bits; the plaintext bound is reused for associated data as a cautious limit.

Every lemma about a successful operation assumes `Valid`. `AeadPrimitive.PrimitivesExist` shows that some
primitive satisfies it. Decryption succeeds exactly when the supplied tag equals
the tag computed over the ciphertext, as long as the primitive does not refuse.

One extra fact is derived rather than assumed. Enciphering maps the byte
strings of each length onto themselves, so every ciphertext is the encryption
of its own decipherment (`AeadPrimitive.CipherIsOnto`). This gives the converse
of the round trip: an input that decrypts is exactly the encryption of its
plaintext.

Encryption checks capacity in two steps (gcm_mode.rs:19-29). It first copies
the plaintext into a buffer of `MAX_CIPHERTEXT_SIZE + 16` bytes and runs the
primitive on it. Only then does it try to append the tag. So for plaintexts
between `MAX_CIPHERTEXT_SIZE` and `MAX_CIPHERTEXT_SIZE + 16` bytes the
primitive runs before `Alloc` is returned. With a `Valid` primitive and
associated data of at most 2^36 − 32 bytes, the result is still `Alloc` exactly
when the plaintext and its tag exceed the capacity. With longer associated data
the primitive may refuse first, and the result is then `Encryption`.

## Model

| member | source | states |
|---|---|---|
| Wrappers.Option.ToResult | sindri/src/crypto/aes/gcm_mode.rs:20-22 | an absent value becomes the given error and a present one a success carrying it, as each `map_err` followed by `?` does |
| Bytes.SplitAt | sindri/src/crypto/aes/gcm_mode.rs:49-50 | splitting at `mid` yields a prefix of length `mid` and a suffix that concatenate back to the input |
| Bytes.Tamper | sindri/src/crypto/aes/gcm_mode.rs:243-246 | the corrupted copy has the same length, differs at the chosen position and agrees everywhere else |
| HeaplessVec.New | sindri/src/crypto/aes/gcm_mode.rs:19 | a new vector is empty and has the capacity fixed by its type |
| HeaplessVec.ExtendFromSlice | sindri/src/crypto/aes/gcm_mode.rs:19-22 | appending succeeds exactly when the result fits the capacity; on success the old contents are a prefix and the slice is the suffix |
| Aes.CheckSizes | sindri/src/crypto/aes/gcm_mode.rs:199-231 | passes iff both lengths match; a wrong key alone gives `InvalidKeySize`, a wrong nonce alone `InvalidIvSize`, both wrong gives one of the two, whichever order is used |
| AeadPrimitive.EncryptInPlaceDetached | sindri/src/crypto/aes/gcm_mode.rs:24-26 | the tag is computed over the ciphertext; for a valid primitive the ciphertext is as long as the buffer and the tag is 16 bytes; for a buffer and associated data of at most 2^36 − 32 bytes sealing never refuses and opening the result with its tag gives back the buffer |
| AeadPrimitive.DecryptInPlaceDetached | sindri/src/crypto/aes/gcm_mode.rs:55-57 | yields plaintext iff the supplied tag equals the tag of the buffer and the primitive does not refuse; for a valid primitive, a buffer and associated data of at most 2^36 − 32 bytes, the plaintext is as long as the buffer, and sealing it again gives back exactly the buffer and the tag |
| GcmMode.Suite.KeySize | sindri/src/crypto/aes/gcm_mode.rs:17 | the key length a suite requires is one of the two AES key sizes, and it is 16 bytes exactly for the AES-128 suite (32 for AES-256) |
| GcmMode.Suite.NonceSize | sindri/src/crypto/aes/gcm_mode.rs:17 | every suite requires the 12-byte (96-bit) nonce |
| GcmMode.Suite.TagSize | sindri/src/crypto/aes/gcm_mode.rs:45-50 | every suite uses the 16-byte (128-bit) tag, the length decryption checks for and splits off |
| GcmMode.AesGcmEncrypt | sindri/src/crypto/aes/gcm_mode.rs:8-32 | key/nonce errors come first; a plaintext larger than the buffer gives `Alloc`; a success is `ciphertext ++ tag(ciphertext)` and fits the buffer; `Encryption` only if the primitive refused; never a decryption-side error |
| GcmMode.AesGcmDecrypt | sindri/src/crypto/aes/gcm_mode.rs:35-59 | key/nonce errors come first; then an input shorter than a tag gives `InvalidBufferSize`; a prefix larger than `MAX_PLAINTEXT_SIZE` gives `Alloc` whatever the tag; a success means the trailing 16 bytes authenticate the prefix and the result is its decipherment |
| GcmMode.Aes128GcmEncrypt | sindri/src/crypto/aes/gcm_mode.rs:67-74 | rejects keys whose length is not 16 with `InvalidKeySize` and nonces that are not 12 bytes with `InvalidIvSize`; a success fits `MAX_PLAINTEXT_SIZE + 16` bytes |
| GcmMode.Aes128GcmDecrypt | sindri/src/crypto/aes/gcm_mode.rs:76-83 | same key and nonce errors for 16-byte keys; inputs shorter than a tag give `InvalidBufferSize`; a success came from an input of 16 to `MAX_PLAINTEXT_SIZE + 16` bytes |
| GcmMode.Aes256GcmEncrypt | sindri/src/crypto/aes/gcm_mode.rs:67-74 | as the AES-128 entry point, with a required key length of 32 |
| GcmMode.Aes256GcmDecrypt | sindri/src/crypto/aes/gcm_mode.rs:76-83 | as the AES-128 entry point, with a required key length of 32 |
| GcmProperties.SizeErrorsComeFirst | sindri/src/crypto/aes/gcm_mode.rs:199-231 | with a wrong key or nonce length, encryption fails, and decryption fails with the same error for every input |
| GcmProperties.EncryptOutcome | sindri/src/crypto/aes/gcm_mode.rs:19-31 | with valid sizes, encryption succeeds iff plaintext plus tag fit the capacity and otherwise fails with `Alloc` only; a success has length \|p\| + 16, the primitive's ciphertext first and its tag last |
| GcmProperties.DecryptAuthenticates | sindri/src/crypto/aes/gcm_mode.rs:49-58 | for inputs the buffers can hold, decryption succeeds iff the trailing 16 bytes are the tag of the prefix, fails otherwise with `Decryption` only, and a success has length \|input\| − 16 |
| GcmProperties.RoundTrip | sindri/src/crypto/aes/gcm_mode.rs:112-119 | for valid sizes, any associated data (empty included) and a plaintext within `MAX_PLAINTEXT_SIZE`, decrypting the encryption returns the plaintext |
| GcmProperties.DecryptThenEncrypt | sindri/src/crypto/aes/gcm_mode.rs:35-59 | an input that decrypts is exactly the encryption of the plaintext it yields |
| GcmProperties.TamperingDetected | sindri/src/crypto/aes/gcm_mode.rs:243-250 | after one byte of a valid encryption is changed, decryption fails only with `Decryption` and never returns the original plaintext; a changed tag byte always gives `Decryption` |
| GcmProperties.SuitesDifferOnlyInKeySize | sindri/src/crypto/aes/gcm_mode.rs:61-88 | over one primitive, two suites give identical results whenever they agree on whether the key has the required length |
| GcmProperties.EntryPointsRoundTrip | sindri/src/crypto/aes/gcm_mode.rs:124-186 | both entry-point pairs succeed and round-trip for keys of their own length (16 or 32) |
| GcmProperties.EntryPointsDecryptFit | sindri/src/crypto/aes/gcm_mode.rs:76-83 | a successful entry-point decryption has length \|input\| − 16, within `MAX_PLAINTEXT_SIZE` |

## Left out

- The AES block cipher and GHASH belong to the external `aes_gcm` crate, which is not part of this model. They are abstract functions constrained by `AeadPrimitive.Valid`.
- The concrete test vectors (gcm_mode.rs:131-185) are not modelled, because the primitive is not computed. Only the round trip those tests perform is stated.
- The body of `check_sizes` is in the parent `aes` module, which is not part of this model. Its order is a parameter (`SizeCheckOrder`), and every result holds for both orders.
- `crate::common::limits` is not part of this model. Both limits are set to 1024 as a stand-in value. The proofs rely only on the two limits being equal and far below the primitive's input bound.
- GcmProperties.TamperingDetected: weaker than "changing any byte always fails". For a changed ciphertext byte, it proves only that the original plaintext never comes back. Failure would require the new tag to differ from the old one, which for GCM holds only with overwhelming probability, not always.
- AeadPrimitive.DecryptInPlaceDetached: the primitive may also refuse over-long inputs (`openRefuses`). So "succeeds exactly when the tag matches" is stated only for associated data and ciphertext within 2^36 − 32 bytes.
- Bytes.Tamper: wraps 0xff to 0x00, whereas the test's `+= 1` would panic in a debug build. The tested byte is not 0xff.
- Lengths are unbounded naturals. `usize` overflow cannot occur in the modelled code, because the subtraction `len - 16` is guarded by the length check.
- Constant-time tag comparison and other side-channel properties are out of scope. They belong to the external crate.
- The job dispatcher, the memory pool, the random-bit generator, the channel implementations, the command-line client and the embedded bootstrap are not part of this model.
