/** Bytes and SHA-256 digests. */
module Bytes {

  newtype byte = x: int | 0 <= x < 256

  type Bytes = seq<byte>

  /** What `Sha256::finalize` produces: 32 bytes. */
  type Digest = d: Bytes | |d| == 32 witness seq(32, _ => 0 as byte)
}
