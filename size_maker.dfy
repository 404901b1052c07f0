/**
 * Passport_Size_Maker.py, lines 33-60: the passport image is encoded with
 * `optimize=True` at qualities 95, 90, ..., 60 until one is at most
 * 450 KB, then re-encoded without `optimize` one quality step higher at a
 * time while it is below 450 KB and the quality is below 100.
 */
module SizeMaker {
  import opened Wrappers
  import opened Codec

  const Target: nat := 450 * 1024
  const Start: int := 95
  const Floor: int := 60
  const Ceiling: int := 100

  /** Phase 1: the first quality from `quality` down, in steps of 5 and at least 60, whose optimised encoding is at most the target. */
  function Phase1(encOpt: Encoder, quality: int): Option<int>
    decreases quality
  {
    if quality < Floor then None
    else if |Save(encOpt, quality)| <= Target then Some(quality)
    else Phase1(encOpt, quality - 5)
  }

  /** A quality phase 1 tries from `quality`. */
  predicate Tried(quality: int, q: int) {
    Floor <= q <= quality && (quality - q) % 5 == 0
  }

  /**
   * Phase 1 stops at the first tried quality whose optimised encoding is at
   * most the target; when it finds none, every tried encoding was larger.
   */
  lemma {:induction false} Phase1IsFirst(encOpt: Encoder, quality: int)
    ensures match Phase1(encOpt, quality)
      case Some(q) =>
        Tried(quality, q) && |Save(encOpt, q)| <= Target &&
        forall p :: Tried(quality, p) && q < p ==> |Save(encOpt, p)| > Target
      case None =>
        forall p :: Tried(quality, p) ==> |Save(encOpt, p)| > Target
    decreases quality
  {
    if quality >= Floor && |Save(encOpt, quality)| > Target {
      Phase1IsFirst(encOpt, quality - 5);
      forall p | Tried(quality, p) && p < quality
        ensures Tried(quality - 5, p)
      {
      }
    }
  }

  /** Phase 2 from `quality` holding `cur`: the final quality and bytes. */
  function Phase2(enc: Encoder, quality: int, cur: seq<byte>): (int, seq<byte>)
    decreases Ceiling - quality
  {
    if |cur| < Target && quality < Ceiling then Phase2(enc, quality + 1, Save(enc, quality + 1))
    else (quality, cur)
  }

  /**
   * Phase 2 raises the quality by at most `100 - quality` steps and stops
   * at the first encoding that reaches the target, or at quality 100; after
   * at least one step the bytes are the plain encoding at the final
   * quality, after none they are the bytes it started with.
   */
  lemma {:induction false} Phase2Bounds(enc: Encoder, quality: int, cur: seq<byte>)
    requires quality <= Ceiling
    ensures var (qf, b) := Phase2(enc, quality, cur);
      && quality <= qf <= Ceiling
      && (|b| >= Target || qf == Ceiling)
      && (qf == quality <==> |cur| >= Target || quality == Ceiling)
      && (qf == quality ==> b == cur)
      && (qf > quality ==> b == Save(enc, qf))
      && (forall p :: quality < p < qf ==> |Save(enc, p)| < Target)
    decreases Ceiling - quality
  {
    if |cur| < Target && quality < Ceiling {
      Phase2Bounds(enc, quality + 1, Save(enc, quality + 1));
    }
  }

  /** What lines 33-60 produce: no bytes when phase 1 finds nothing (`final_bytes` is still `None`). */
  function Result(enc: Encoder, encOpt: Encoder): Option<seq<byte>> {
    match Phase1(encOpt, Start)
    case None => None
    case Some(q) => Some(Phase2(enc, q, Save(encOpt, q)).1)
  }

  /** Without a phase-1 success there is no result: the source then fails at `final_bytes.tell()`. */
  lemma NoResultWithoutPhase1(enc: Encoder, encOpt: Encoder)
    ensures Result(enc, encOpt).None? <==> forall p :: Tried(Start, p) ==> |Save(encOpt, p)| > Target
  {
    Phase1IsFirst(encOpt, Start);
    if Phase1(encOpt, Start).Some? {
      var q := Phase1(encOpt, Start).value;
      assert Tried(Start, q);
    }
  }

  /**
   * A result is at least the target, or was re-encoded at quality 100; an
   * optimised encoding of exactly the target is kept as it is.
   */
  lemma ResultShape(enc: Encoder, encOpt: Encoder)
    requires Result(enc, encOpt).Some?
    ensures var q := Phase1(encOpt, Start).value;
      var r := Result(enc, encOpt).value;
      && (|r| >= Target || r == Save(enc, Ceiling))
      && (|Save(encOpt, q)| == Target ==> r == Save(encOpt, q))
      && (|Save(encOpt, q)| < Target ==> exists p :: q < p <= Ceiling && r == Save(enc, p))
  {
    var q := Phase1(encOpt, Start).value;
    Phase1IsFirst(encOpt, Start);
    Phase2Bounds(enc, q, Save(encOpt, q));
    var (qf, b) := Phase2(enc, q, Save(encOpt, q));
    if |Save(encOpt, q)| < Target {
      assert q < qf <= Ceiling && b == Save(enc, qf);
    }
  }

  /** Lines 33-56 as written, returning `final_bytes` and the quality the search ends on. */
  method SavePassportSize(enc: Encoder, encOpt: Encoder) returns (finalBytes: Option<seq<byte>>, quality: int)
    ensures finalBytes == Result(enc, encOpt)
    ensures finalBytes.Some? ==> quality == Phase2(enc, Phase1(encOpt, Start).value, Save(encOpt, Phase1(encOpt, Start).value)).0
  {
    quality := Start;
    finalBytes := None;
    while quality >= Floor
      invariant quality <= Start
      invariant Phase1(encOpt, quality) == Phase1(encOpt, Start)
      decreases quality
    {
      var buffer := Save(encOpt, quality);
      var size := |buffer|;
      if size <= Target {
        finalBytes := Some(buffer);
        break;
      }
      quality := quality - 5;
    }

    if finalBytes.Some? {
      ghost var q1 := quality;
      assert Phase1(encOpt, Start) == Some(q1);
      while |finalBytes.value| < Target && quality < Ceiling
        invariant finalBytes.Some? && quality <= Ceiling
        invariant Phase2(enc, quality, finalBytes.value) == Phase2(enc, q1, Save(encOpt, q1))
        decreases Ceiling - quality
      {
        quality := quality + 1;
        var buffer := Save(enc, quality);
        finalBytes := Some(buffer);
      }
    }
  }
}
