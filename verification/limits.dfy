/** Compile-time message-size limits shared by every component of the service. */
module Limits {

  /** Largest plaintext a job may carry, in bytes. */
  const MAX_PLAINTEXT_SIZE: nat := 1024

  /** Largest ciphertext (without its tag) a job may carry, in bytes. The
      AES-GCM wrapper needs it to equal `MAX_PLAINTEXT_SIZE`: the generic
      encryption function and the public entry points describe the same output
      buffer with the two different names. */
  const MAX_CIPHERTEXT_SIZE: nat := 1024
}
