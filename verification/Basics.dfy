/** Types shared by every module: bytes, 32-byte digests and the hash they come from. */
module Basics {

  /** One octet of a `Uint8Array`. */
  type byte = x: int | 0 <= x < 256

  type Bytes = seq<byte>

  /** The output of SHA-256. */
  type Digest = d: Bytes | |d| == 32 witness seq(32, _ => 0)

  /** SHA-256 is a parameter of the model: nothing is assumed about it. */
  type Sha = Bytes -> Digest

  datatype Option<+T> = None | Some(value: T)

  datatype Result<+T, +E> = Ok(value: T) | Err(error: E)

  /** Two different inputs, one from each of two given sets, with the same hash.
      Naming the sets matters: some collision always exists, one among given inputs does not. */
  ghost predicate Collides(sha: Sha, left: set<Bytes>, right: set<Bytes>) {
    exists a, b :: a in left && b in right && a != b && sha(a) == sha(b)
  }
}
