/**
 * ehajj_photo_size.py: `compress_to_small_range`, a descent from JPEG
 * quality 95 in steps of 5 for an encoding between `min_kb` and `max_kb`
 * kilobytes (7 and 12 by default) that gives up at the first undershoot.
 */
module EhajjPhoto {
  import opened Wrappers
  import opened Codec

  const Start: int := 95
  const Floor: int := 10

  /**
   * The qualities the loop probes from `quality` on: stop at a hit or an
   * undershoot, step down by 5 after an overshoot, and never go below 10.
   */
  function Descent(enc: Encoder, minKb: int, maxKb: int, quality: int): seq<int>
    decreases quality
  {
    if quality < Floor then []
    else
      var n := |Save(enc, quality)|;
      if InBand(n, minKb, maxKb) then [quality]
      else if n > maxKb * 1024 then [quality] + Descent(enc, minKb, maxKb, quality - 5)
      else [quality]
  }

  /** The i-th probe is `quality - 5i`, all probes are at least 10, and there is one when `quality >= 10`. */
  lemma {:induction false} DescentOrder(enc: Encoder, minKb: int, maxKb: int, quality: int)
    ensures var ps := Descent(enc, minKb, maxKb, quality);
      && (|ps| > 0 <==> quality >= Floor)
      && (forall i :: 0 <= i < |ps| ==> ps[i] == quality - 5 * i && ps[i] >= Floor)
    decreases quality
  {
    if quality >= Floor {
      var ps := Descent(enc, minKb, maxKb, quality);
      var rest := Descent(enc, minKb, maxKb, quality - 5);
      DescentOrder(enc, minKb, maxKb, quality - 5);
      if |ps| > 1 {
        assert ps == [quality] + rest;
        forall i | 0 < i < |ps|
          ensures ps[i] == quality - 5 * i
        {
          assert ps[i] == rest[i - 1];
        }
      }
    }
  }

  /** From 95 the loop probes 95, 90, ... and at most 18 qualities, the last no lower than 10. */
  lemma AtMostEighteenProbes(enc: Encoder, minKb: int, maxKb: int)
    ensures var ps := Descent(enc, minKb, maxKb, Start);
      1 <= |ps| <= 18 && ps[0] == Start && ps[|ps| - 1] >= Floor
  {
    var ps := Descent(enc, minKb, maxKb, Start);
    DescentOrder(enc, minKb, maxKb, Start);
    assert ps[|ps| - 1] == Start - 5 * (|ps| - 1);
  }

  /**
   * Every probe but the last overshoots: a hit returns at once and an
   * undershoot breaks out of the loop.
   */
  lemma {:induction false} OnlyOvershootsContinue(enc: Encoder, minKb: int, maxKb: int, quality: int)
    ensures forall i :: 0 <= i < |Descent(enc, minKb, maxKb, quality)| - 1 ==>
      |Save(enc, Descent(enc, minKb, maxKb, quality)[i])| > maxKb * 1024
    decreases quality
  {
    if quality >= Floor {
      var ps := Descent(enc, minKb, maxKb, quality);
      var rest := Descent(enc, minKb, maxKb, quality - 5);
      OnlyOvershootsContinue(enc, minKb, maxKb, quality - 5);
      if |ps| > 1 {
        assert ps == [quality] + rest;
        forall i | 0 < i < |ps| - 1
          ensures |Save(enc, ps[i])| > maxKb * 1024
        {
          assert ps[i] == rest[i - 1];
        }
      }
    }
  }

  /** When every quality from `quality` down to 10 overshoots, the search ends on quality 10, which overshoots. */
  lemma {:induction false} AllOvershoot(enc: Encoder, minKb: int, maxKb: int, quality: int)
    requires quality >= Floor && quality % 5 == 0
    requires forall q :: Floor <= q <= quality && q % 5 == 0 ==> |Save(enc, q)| > maxKb * 1024
    ensures var ps := Descent(enc, minKb, maxKb, quality);
      |ps| > 0 && ps[|ps| - 1] == Floor && |Save(enc, Floor)| > maxKb * 1024
    decreases quality
  {
    if quality > Floor {
      AllOvershoot(enc, minKb, maxKb, quality - 5);
      assert |Save(enc, quality)| > maxKb * 1024;
    } else {
      assert |Save(enc, Floor)| > maxKb * 1024;
    }
  }

  /** The quality the descent ends on. */
  function LastProbe(enc: Encoder, minKb: int, maxKb: int, quality: int): int
    requires quality >= Floor
  {
    DescentOrder(enc, minKb, maxKb, quality);
    var ps := Descent(enc, minKb, maxKb, quality);
    ps[|ps| - 1]
  }

  /** The last probe is this one after a hit or an undershoot or at quality 10, else the next one's. */
  lemma LastProbeStep(enc: Encoder, minKb: int, maxKb: int, quality: int)
    requires quality >= Floor
    ensures var n := |Save(enc, quality)|;
      LastProbe(enc, minKb, maxKb, quality) ==
        if n > maxKb * 1024 && !InBand(n, minKb, maxKb) && quality - 5 >= Floor
        then LastProbe(enc, minKb, maxKb, quality - 5)
        else quality
  {
    DescentOrder(enc, minKb, maxKb, quality - 5);
  }

  /**
   * `compress_to_small_range`: the loop as written. The result is the
   * encoding at the last probed quality and its size in bytes (the source
   * reports it divided by 1024); it is never the initial `None`.
   */
  method CompressToSmallRange(enc: Encoder, minKb: int, maxKb: int)
    returns (final: Option<seq<byte>>, finalSize: nat)
    ensures var ps := Descent(enc, minKb, maxKb, Start);
      |ps| > 0 && final == Some(Save(enc, ps[|ps| - 1])) && finalSize == |final.value|
  {
    ghost var ps := Descent(enc, minKb, maxKb, Start);
    assert |ps| > 0;
    var quality := Start;
    final, finalSize := None, 0;
    while quality >= Floor
      invariant quality >= Floor ==> LastProbe(enc, minKb, maxKb, quality) == ps[|ps| - 1]
      invariant quality < Floor ==> final == Some(Save(enc, ps[|ps| - 1])) && finalSize == |final.value|
      decreases quality
    {
      var bytes := Save(enc, quality);
      var size := |bytes|;
      final, finalSize := Some(bytes), size;
      LastProbeStep(enc, minKb, maxKb, quality);
      if InBand(size, minKb, maxKb) {
        return;
      }
      if size > maxKb * 1024 {
        quality := quality - 5;
      } else {
        break;
      }
    }
  }
}
