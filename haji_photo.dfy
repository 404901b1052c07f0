/**
 * Passport_Photo_Maker.py: the Haji photo is resized to a fixed 120 x 150
 * and then encoded by a descent from quality 95 in steps of 5 while the
 * quality stays above 10, for a file of 5 to 12 KB; when none fits, a
 * fresh quality-40 encoding is returned.
 */
module HajiPhoto {
  import opened Wrappers
  import opened Codec

  const MinKb: int := 5
  const MaxKb: int := 12
  const Start: int := 95
  const Fallback: int := 40

  // ---------------------------------------------------------------------
  // resize_to_haji_standard and the dimension checks, lines 44-52, 105-109
  // ---------------------------------------------------------------------

  predicate WidthAllowed(w: int) { 70 <= w <= 165 }
  predicate HeightAllowed(h: int) { 65 <= h <= 185 }

  /** `img.resize((120, 150))`: the size of the input does not matter. */
  function ResizeToHajiStandard(width: nat, height: nat): (r: (int, int))
    ensures WidthAllowed(r.0) && HeightAllowed(r.1)
  {
    (120, 150)
  }

  /** The error messages lines 105-109 show for a processed image of this size, in order. */
  function DimensionErrors(width: int, height: int): (errs: seq<string>)
    ensures "Width not in allowed range" in errs <==> !WidthAllowed(width)
    ensures "Height not in allowed range" in errs <==> !HeightAllowed(height)
    ensures |errs| <= 2
  {
    (if WidthAllowed(width) then [] else ["Width not in allowed range"]) +
    (if HeightAllowed(height) then [] else ["Height not in allowed range"])
  }

  /** The resized photo never triggers a width or height error. */
  lemma ResizedPhotoPassesChecks(width: nat, height: nat)
    ensures var r := ResizeToHajiStandard(width, height);
      DimensionErrors(r.0, r.1) == []
  {
  }

  // ---------------------------------------------------------------------
  // compress_to_size, lines 59-81
  // ---------------------------------------------------------------------

  /** The first quality from `quality` down, in steps of 5 and above 10, whose encoding is in band. */
  function FirstHit(enc: Encoder, quality: int): Option<int>
    decreases quality
  {
    if quality <= 10 then None
    else if InBand(|Save(enc, quality)|, MinKb, MaxKb) then Some(quality)
    else FirstHit(enc, quality - 5)
  }

  /** A probed quality: above 10 and a multiple of 5 steps below `quality`. */
  predicate Probed(quality: int, q: int) {
    10 < q <= quality && (quality - q) % 5 == 0
  }

  /**
   * A hit is a probed quality in band with no probed quality above it in
   * band; no hit means no probed quality is in band.
   */
  lemma {:induction false} FirstHitIsFirst(enc: Encoder, quality: int)
    ensures match FirstHit(enc, quality)
      case Some(q) =>
        Probed(quality, q) && InBand(|Save(enc, q)|, MinKb, MaxKb) &&
        forall p :: Probed(quality, p) && q < p ==> !InBand(|Save(enc, p)|, MinKb, MaxKb)
      case None =>
        forall p :: Probed(quality, p) ==> !InBand(|Save(enc, p)|, MinKb, MaxKb)
    decreases quality
  {
    if quality > 10 && !InBand(|Save(enc, quality)|, MinKb, MaxKb) {
      FirstHitIsFirst(enc, quality - 5);
      forall p | Probed(quality, p) && p < quality
        ensures Probed(quality - 5, p)
      {
      }
    }
  }

  /** From 95 the probes are 95, 90, ..., 15: seventeen qualities. */
  lemma SeventeenProbes()
    ensures forall q :: Probed(Start, q) <==> 15 <= q <= 95 && q % 5 == 0
  {
  }

  /**
   * The fallback can never be in band: quality 40 is one of the probes,
   * so it was already tried and missed.
   */
  lemma FallbackOutOfBand(enc: Encoder)
    requires FirstHit(enc, Start).None?
    ensures !InBand(|Save(enc, Fallback)|, MinKb, MaxKb)
  {
    FirstHitIsFirst(enc, Start);
    assert Probed(Start, Fallback);
  }

  /** So the returned size is in band exactly when some probe hit. */
  lemma ResultInBandIff(enc: Encoder)
    ensures InBand(|Save(enc, FirstHit(enc, Start).GetOr(Fallback))|, MinKb, MaxKb) <==> FirstHit(enc, Start).Some?
  {
    FirstHitIsFirst(enc, Start);
    if FirstHit(enc, Start).None? {
      FallbackOutOfBand(enc);
    }
  }

  /**
   * `compress_to_size`: the loop as written, returning the bytes in the
   * buffer and `buffer.tell()`, which is their length.
   */
  method CompressToSize(enc: Encoder) returns (bytes: seq<byte>, size: nat)
    ensures bytes == Save(enc, FirstHit(enc, Start).GetOr(Fallback))
    ensures size == |bytes|
  {
    var quality := Start;
    while quality > 10
      invariant FirstHit(enc, quality) == FirstHit(enc, Start)
      decreases quality
    {
      bytes := Save(enc, quality);
      size := |bytes|;
      if InBand(size, MinKb, MaxKb) {
        return;
      }
      quality := quality - 5;
    }
    bytes := Save(enc, Fallback);
    size := |bytes|;
  }
}
