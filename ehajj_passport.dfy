/**
 * ehajj_passport_size.py: `compress_image_to_range`, a bisection over the
 * JPEG quality 20..95 for an encoding between `min_kb` and `max_kb`
 * kilobytes (400 and 600 by default).
 */
module EhajjPassport {
  import opened Wrappers
  import opened Codec

  const Low: int := 20
  const High: int := 95

  /**
   * The qualities the loop probes, in order, from the state `low`,
   * `high`: the midpoint, then (unless it was in band) the same search
   * above it after an undershoot or below it after an overshoot.
   */
  function Probes(enc: Encoder, minKb: int, maxKb: int, low: int, high: int): seq<int>
    decreases high - low + 1
  {
    if low > high then []
    else
      var q := (low + high) / 2;
      var n := |Save(enc, q)|;
      if InBand(n, minKb, maxKb) then [q]
      else if n < minKb * 1024 then [q] + Probes(enc, minKb, maxKb, q + 1, high)
      else [q] + Probes(enc, minKb, maxKb, low, q - 1)
  }

  /** One step of the search, as a single equation. */
  lemma ProbesUnfold(enc: Encoder, minKb: int, maxKb: int, low: int, high: int)
    requires low <= high
    ensures var q := (low + high) / 2;
      var n := |Save(enc, q)|;
      Probes(enc, minKb, maxKb, low, high) == [q] +
        if InBand(n, minKb, maxKb) then []
        else if n < minKb * 1024 then Probes(enc, minKb, maxKb, q + 1, high)
        else Probes(enc, minKb, maxKb, low, q - 1)
  {
  }

  /** Every probe lies in the current range, and there is one as long as the range is not empty. */
  lemma {:induction false} ProbesInRange(enc: Encoder, minKb: int, maxKb: int, low: int, high: int)
    ensures var ps := Probes(enc, minKb, maxKb, low, high);
      (|ps| > 0 <==> low <= high) && forall i :: 0 <= i < |ps| ==> low <= ps[i] <= high
    decreases high - low + 1
  {
    if low <= high {
      var q := (low + high) / 2;
      ProbesInRange(enc, minKb, maxKb, q + 1, high);
      ProbesInRange(enc, minKb, maxKb, low, q - 1);
    }
  }

  /** Only the last probe can be in band: the loop returns at the first one that is. */
  lemma {:induction false} OnlyLastInBand(enc: Encoder, minKb: int, maxKb: int, low: int, high: int)
    ensures var ps := Probes(enc, minKb, maxKb, low, high);
      forall i :: 0 <= i < |ps| - 1 ==> !InBand(|Save(enc, ps[i])|, minKb, maxKb)
    decreases high - low + 1
  {
    if low <= high {
      var q := (low + high) / 2;
      var n := |Save(enc, q)|;
      if !InBand(n, minKb, maxKb) {
        var next := if n < minKb * 1024 then q + 1 else low;
        var last := if n < minKb * 1024 then high else q - 1;
        var rest := Probes(enc, minKb, maxKb, next, last);
        OnlyLastInBand(enc, minKb, maxKb, next, last);
        ProbesUnfold(enc, minKb, maxKb, low, high);
        var ps := Probes(enc, minKb, maxKb, low, high);
        assert ps == [q] + rest;
        forall i | 0 <= i < |ps| - 1
          ensures !InBand(|Save(enc, ps[i])|, minKb, maxKb)
        {
          if i > 0 {
            assert ps[i] == rest[i - 1];
          }
        }
      }
    }
  }

  /**
   * The two bisection steps: after an undershoot every later probe is a
   * higher quality, after any other miss (an overshoot) a lower one.
   */
  lemma StepDirection(enc: Encoder, minKb: int, maxKb: int, low: int, high: int)
    requires low <= high
    ensures var ps := Probes(enc, minKb, maxKb, low, high);
      var n := |Save(enc, ps[0])|;
      && ps[0] == (low + high) / 2
      && (n < minKb * 1024 ==> forall i :: 0 < i < |ps| ==> ps[i] > ps[0])
      && (!InBand(n, minKb, maxKb) && n >= minKb * 1024 ==> forall i :: 0 < i < |ps| ==> ps[i] < ps[0])
  {
    var q := (low + high) / 2;
    ProbesInRange(enc, minKb, maxKb, q + 1, high);
    ProbesInRange(enc, minKb, maxKb, low, q - 1);
  }

  function Pow2(k: nat): (p: nat)
    ensures p >= 1
  {
    if k == 0 then 1 else 2 * Pow2(k - 1)
  }

  /** A range of fewer than 2^k qualities takes at most k probes. */
  lemma {:induction false} ProbeCount(enc: Encoder, minKb: int, maxKb: int, low: int, high: int, k: nat)
    requires high - low + 1 < Pow2(k)
    ensures |Probes(enc, minKb, maxKb, low, high)| <= k
    decreases high - low + 1
  {
    if low <= high {
      var q := (low + high) / 2;
      assert k > 0;
      ProbeCount(enc, minKb, maxKb, q + 1, high, k - 1);
      ProbeCount(enc, minKb, maxKb, low, q - 1, k - 1);
    }
  }

  /** The search over 20..95 (76 qualities) makes between one and seven probes. */
  lemma AtMostSevenProbes(enc: Encoder, minKb: int, maxKb: int)
    ensures 1 <= |Probes(enc, minKb, maxKb, Low, High)| <= 7
  {
    ProbesInRange(enc, minKb, maxKb, Low, High);
    assert Pow2(7) == 128;
    ProbeCount(enc, minKb, maxKb, Low, High, 7);
  }

  /**
   * With a monotone codec, a quality in the range whose encoding is in band
   * is never cut off by a step, so the last probe is in band.
   */
  lemma {:induction false} MonotoneFindsBand(enc: Encoder, minKb: int, maxKb: int, low: int, high: int, w: int)
    requires Monotone(enc)
    requires low <= w <= high && InBand(|Save(enc, w)|, minKb, maxKb)
    ensures var ps := Probes(enc, minKb, maxKb, low, high);
      |ps| > 0 && InBand(|Save(enc, ps[|ps| - 1])|, minKb, maxKb)
    decreases high - low + 1
  {
    var q := (low + high) / 2;
    var n := |Save(enc, q)|;
    if InBand(n, minKb, maxKb) {
    } else if n < minKb * 1024 {
      if w <= q {
        assert false;
      }
      MonotoneFindsBand(enc, minKb, maxKb, q + 1, high, w);
    } else {
      if q <= w {
        assert false;
      }
      MonotoneFindsBand(enc, minKb, maxKb, low, q - 1, w);
    }
  }

  /**
   * `compress_image_to_range`: the loop as written. The result is the
   * encoding at the last probed quality and its size in bytes (the source
   * reports it divided by 1024); it is never the initial `None`.
   */
  method CompressImageToRange(enc: Encoder, minKb: int, maxKb: int)
    returns (best: Option<seq<byte>>, bestSize: nat)
    ensures var ps := Probes(enc, minKb, maxKb, Low, High);
      |ps| > 0 && best == Some(Save(enc, ps[|ps| - 1])) && bestSize == |best.value|
  {
    ghost var ps := Probes(enc, minKb, maxKb, Low, High);
    ProbesInRange(enc, minKb, maxKb, Low, High);
    var low, high := Low, High;
    best, bestSize := None, 0;
    while low <= high
      invariant low <= high + 1
      invariant low <= high ==> LastProbe(enc, minKb, maxKb, low, high) == ps[|ps| - 1]
      invariant low > high ==> best == Some(Save(enc, ps[|ps| - 1])) && bestSize == |best.value|
      decreases high - low + 1
    {
      var quality := (low + high) / 2;
      var bytes := Save(enc, quality);
      var size := |bytes|;
      best, bestSize := Some(bytes), size;
      LastProbeStep(enc, minKb, maxKb, low, high);
      if InBand(size, minKb, maxKb) {
        return;
      } else if size < minKb * 1024 {
        low := quality + 1;
      } else {
        high := quality - 1;
      }
    }
  }

  /** The quality the search ends on from a non-empty range. */
  function LastProbe(enc: Encoder, minKb: int, maxKb: int, low: int, high: int): int
    requires low <= high
  {
    ProbesInRange(enc, minKb, maxKb, low, high);
    var ps := Probes(enc, minKb, maxKb, low, high);
    ps[|ps| - 1]
  }

  /** The last probe is the midpoint after a hit or when the half-range is empty, else the half-range's last probe. */
  lemma LastProbeStep(enc: Encoder, minKb: int, maxKb: int, low: int, high: int)
    requires low <= high
    ensures var q := (low + high) / 2;
      var n := |Save(enc, q)|;
      var next := if n < minKb * 1024 then q + 1 else low;
      var last := if n < minKb * 1024 then high else q - 1;
      LastProbe(enc, minKb, maxKb, low, high) ==
        if InBand(n, minKb, maxKb) || next > last then q else LastProbe(enc, minKb, maxKb, next, last)
  {
    var q := (low + high) / 2;
    var n := |Save(enc, q)|;
    var next := if n < minKb * 1024 then q + 1 else low;
    var last := if n < minKb * 1024 then high else q - 1;
    ProbesUnfold(enc, minKb, maxKb, low, high);
    ProbesInRange(enc, minKb, maxKb, next, last);
  }
}
