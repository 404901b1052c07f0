/**
 * What the image tools see of the JPEG codec: for one prepared image,
 * `image.save(buffer, format="JPEG", quality=q)` writes a byte string that
 * depends only on `q`. The codec itself is not modelled; every search loop
 * takes it as a function from quality to bytes.
 */
module Codec {

  newtype byte = x: int | 0 <= x < 256

  /** The encoding of one fixed image at each quality setting. */
  type Encoder = int -> seq<byte>

  /** `image.save(buffer, format="JPEG", quality=quality)`: the bytes written. */
  function Save(enc: Encoder, quality: int): seq<byte> {
    enc(quality)
  }

  /**
   * `min_kb <= len(data) / 1024 <= max_kb`. The division is exact in
   * floating point for every realistic length, so the test is the same as
   * comparing the byte count with the bounds scaled by 1024.
   */
  predicate InBand(n: nat, minKb: int, maxKb: int) {
    minKb * 1024 <= n <= maxKb * 1024
  }

  /** The comment in the bisection assumes it: a higher quality never gives a smaller file. */
  ghost predicate Monotone(enc: Encoder) {
    forall a: int, b: int {:trigger enc(a), enc(b)} :: a <= b ==> |enc(a)| <= |enc(b)|
  }

  /** `n` zero bytes, for concrete encoders in examples. */
  function Zeros(n: nat): (r: seq<byte>)
    ensures |r| == n
  {
    if n == 0 then [] else Zeros(n - 1) + [0]
  }
}
