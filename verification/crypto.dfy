/**
 The two cryptographic primitives the library calls but does not define:
 the KangarooTwelve hash (`K12`) and the SchnorrQ signer. They are passed in
 as a capability value and nothing is assumed about them except the number
 of bytes they produce.
 */
module Crypto {
  import opened Bytes

  /** `hash(input, n)`: the first `n` output bytes of K12 over `input`. */
  type Hasher = f: (Bytes, nat) -> Bytes | forall input, n :: |f(input, n)| == n
    witness (input: Bytes, n: nat) => Zeros(n)

  /** `derivePublicKey(privateKey)`: SchnorrQ's 32-byte public key for a private key. */
  type KeyDeriver = f: Bytes -> Bytes | forall privateKey :: |f(privateKey)| == 32
    witness (privateKey: Bytes) => Zeros(32)

  /** `sign(privateKey, publicKey, digest)`: a 64-byte SchnorrQ signature. */
  type Signer = f: (Bytes, Bytes, Bytes) -> Bytes | forall privateKey, publicKey, digest :: |f(privateKey, publicKey, digest)| == 64
    witness (privateKey: Bytes, publicKey: Bytes, digest: Bytes) => Zeros(64)

  datatype Crypto = Crypto(hash: Hasher, derivePublicKey: KeyDeriver, sign: Signer)
}
