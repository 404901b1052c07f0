/**
 * pages/Passport_Photo_Maker.py: the clamp of the resized photo's size
 * into the allowed range, and `compress_to_size`, which reuses one
 * in-memory buffer for every trial encoding, rewinding it without
 * truncating it.
 */
module PhotoPage {
  import opened Wrappers
  import opened Codec
  import HajiPhoto

  const MinW: int := 70
  const MaxW: int := 165
  const MinH: int := 65
  const MaxH: int := 185
  const MinKb: int := 5
  const MaxKb: int := 12
  const Start: int := 95

  // ---------------------------------------------------------------------
  // resize_passport, lines 34-35
  // ---------------------------------------------------------------------

  /** `max(lo, min(hi, v))` for `lo <= hi`: in-range values stay, the rest go to the nearer end. */
  function Clamp(v: int, lo: int, hi: int): (r: int)
    requires lo <= hi
    ensures lo <= r <= hi
    ensures lo <= v <= hi ==> r == v
    ensures v < lo ==> r == lo
    ensures v > hi ==> r == hi
  {
    var m := if hi < v then hi else v;
    if lo > m then lo else m
  }

  /** The clamped size of the resized photo, from the scaled width and height. */
  function ClampSize(newW: int, newH: int): (r: (int, int))
    ensures MinW <= r.0 <= MaxW && MinH <= r.1 <= MaxH
  {
    (Clamp(newW, MinW, MaxW), Clamp(newH, MinH, MaxH))
  }

  /** Clamping twice is clamping once, and an allowed size is left as it is. */
  lemma ClampIdempotent(newW: int, newH: int)
    ensures var r := ClampSize(newW, newH); ClampSize(r.0, r.1) == r
    ensures MinW <= newW <= MaxW && MinH <= newH <= MaxH ==> ClampSize(newW, newH) == (newW, newH)
  {
  }

  // ---------------------------------------------------------------------
  // io.BytesIO as used by compress_to_size
  // ---------------------------------------------------------------------

  function Max(a: int, b: int): int { if a < b then b else a }

  /**
   * The contents after writing `d` at position `p`: a gap past the end is
   * filled with zero bytes, `d` replaces what was there, and anything
   * after it is kept.
   */
  function Overwrite(s: seq<byte>, p: nat, d: seq<byte>): (r: seq<byte>)
    ensures |r| == Max(|s|, p + |d|)
    ensures r[p..p + |d|] == d
    ensures forall i :: p + |d| <= i < |s| ==> r[i] == s[i]
    ensures forall i :: 0 <= i < p && i < |s| ==> r[i] == s[i]
  {
    var padded := if p <= |s| then s else s + Zeros(p - |s|);
    var tail := if p + |d| < |padded| then padded[p + |d|..] else [];
    assert (padded[..p] + d + tail)[p..p + |d|] == d;
    padded[..p] + d + tail
  }

  /** A rewound buffer written with `d` holds `d` followed by the old bytes past `|d|`. */
  lemma OverwriteFromStart(s: seq<byte>, d: seq<byte>)
    ensures Overwrite(s, 0, d) == d + (if |d| < |s| then s[|d|..] else [])
  {
    var r := Overwrite(s, 0, d);
    var e := d + (if |d| < |s| then s[|d|..] else []);
    assert |r| == |e|;
    forall i | 0 <= i < |r|
      ensures r[i] == e[i]
    {
      if i < |d| {
        assert r[i] == r[0..|d|][i];
      }
    }
  }

  /** `io.BytesIO()`: its bytes and its stream position. */
  class BytesBuffer {
    var contents: seq<byte>
    var pos: nat

    constructor ()
      ensures contents == [] && pos == 0
    {
      contents := [];
      pos := 0;
    }

    /** `seek(offset)`: moves the position; the bytes stay. */
    method Seek(offset: nat)
      modifies this
      ensures contents == old(contents) && pos == offset
    {
      pos := offset;
    }

    /** `write(data)`: overwrites from the position and moves past what was written. */
    method Write(data: seq<byte>)
      modifies this
      ensures contents == Overwrite(old(contents), old(pos), data)
      ensures pos == old(pos) + |data|
    {
      contents := Overwrite(contents, pos, data);
      pos := pos + |data|;
    }

    /** `truncate()`: drops everything from the position on. */
    method Truncate()
      modifies this
      ensures contents == if pos < |old(contents)| then old(contents)[..pos] else old(contents)
      ensures pos == old(pos)
    {
      if pos < |contents| {
        contents := contents[..pos];
      }
    }

    /** `getvalue()`: all of the bytes, whatever the position. */
    function GetValue(): seq<byte>
      reads this
    {
      contents
    }
  }

  // ---------------------------------------------------------------------
  // compress_to_size, lines 64-78
  // ---------------------------------------------------------------------

  /**
   * The buffer's final bytes when the loop reaches `quality` holding
   * `buf`: rewind, write this quality's encoding over the old bytes, test
   * the length of everything in the buffer, stop on a pass.
   */
  function SharedFinal(enc: Encoder, quality: int, buf: seq<byte>): seq<byte>
    decreases quality
  {
    if quality <= 10 then buf
    else
      var b := Overwrite(buf, 0, Save(enc, quality));
      if InBand(|b|, MinKb, MaxKb) then b else SharedFinal(enc, quality - 5, b)
  }

  /** Each test measures the longest encoding written so far, not the newest. */
  lemma MeasuredIsRunningMax(enc: Encoder, quality: int, buf: seq<byte>)
    ensures |Overwrite(buf, 0, Save(enc, quality))| == Max(|buf|, |Save(enc, quality)|)
    ensures Overwrite(buf, 0, Save(enc, quality))[..|Save(enc, quality)|] == Save(enc, quality)
  {
  }

  /** The buffer never shrinks: the final bytes are at least as long as the bytes the loop started from. */
  lemma {:induction false} SharedFinalGrows(enc: Encoder, quality: int, buf: seq<byte>)
    ensures |SharedFinal(enc, quality, buf)| >= |buf|
    decreases quality
  {
    if quality > 10 {
      var b := Overwrite(buf, 0, Save(enc, quality));
      if !InBand(|b|, MinKb, MaxKb) {
        SharedFinalGrows(enc, quality - 5, b);
      }
    }
  }

  /**
   * Once the buffer holds more than 12 KB no later test can pass: the loop
   * runs down to quality 15 and the result is over the limit.
   */
  lemma {:induction false} OversizedBufferNeverPasses(enc: Encoder, quality: int, buf: seq<byte>)
    requires |buf| > MaxKb * 1024
    ensures |SharedFinal(enc, quality, buf)| > MaxKb * 1024
    ensures !InBand(|SharedFinal(enc, quality, buf)|, MinKb, MaxKb)
    decreases quality
  {
    if quality > 10 {
      var b := Overwrite(buf, 0, Save(enc, quality));
      OversizedBufferNeverPasses(enc, quality - 5, b);
    }
  }

  /**
   * `compress_to_size`: the loop as written, on one buffer created before
   * it. The same buffer is returned in every case.
   */
  method CompressToSize(enc: Encoder) returns (buffer: BytesBuffer)
    ensures fresh(buffer)
    ensures buffer.GetValue() == SharedFinal(enc, Start, [])
  {
    var quality := Start;
    buffer := new BytesBuffer();
    while quality > 10
      invariant SharedFinal(enc, quality, buffer.contents) == SharedFinal(enc, Start, [])
      decreases quality
    {
      buffer.Seek(0);
      buffer.Write(Save(enc, quality));
      var sizeOk := InBand(|buffer.GetValue()|, MinKb, MaxKb);
      if sizeOk {
        break;
      }
      quality := quality - 5;
    }
  }

  // ---------------------------------------------------------------------
  // The same loop with the buffer truncated after each write
  // ---------------------------------------------------------------------

  /** The final bytes when each trial replaces the buffer's contents: the last encoding written. */
  function FreshFinal(enc: Encoder, quality: int, buf: seq<byte>): seq<byte>
    decreases quality
  {
    if quality <= 10 then buf
    else
      var b := Save(enc, quality);
      if InBand(|b|, MinKb, MaxKb) then b else FreshFinal(enc, quality - 5, b)
  }

  /**
   * With truncation the result is the first in-band encoding, the one the
   * Haji photo page finds with a fresh buffer per trial; with no hit it is
   * the quality-15 encoding.
   */
  lemma {:induction false} FreshFinalIsFirstHit(enc: Encoder, quality: int, buf: seq<byte>)
    requires quality > 10 && quality % 5 == 0
    ensures match HajiPhoto.FirstHit(enc, quality)
      case Some(q) => FreshFinal(enc, quality, buf) == Save(enc, q)
      case None => FreshFinal(enc, quality, buf) == Save(enc, 15)
    decreases quality
  {
    if quality > 15 && !InBand(|Save(enc, quality)|, MinKb, MaxKb) {
      FreshFinalIsFirstHit(enc, quality - 5, Save(enc, quality));
    }
  }

  /** So the truncating loop ends in band exactly when some probe from 95 down to 15 is in band. */
  lemma FreshFinalInBandIff(enc: Encoder)
    ensures InBand(|FreshFinal(enc, Start, [])|, MinKb, MaxKb) <==>
      exists q :: HajiPhoto.Probed(Start, q) && InBand(|Save(enc, q)|, MinKb, MaxKb)
  {
    FreshFinalIsFirstHit(enc, Start, []);
    HajiPhoto.FirstHitIsFirst(enc, Start);
    if HajiPhoto.FirstHit(enc, Start).None? {
      assert HajiPhoto.Probed(Start, 15);
    }
  }

  /** `compress_to_size` with `buffer.truncate()` after each save. */
  method CompressToSizeTruncating(enc: Encoder) returns (buffer: BytesBuffer)
    ensures fresh(buffer)
    ensures buffer.GetValue() == FreshFinal(enc, Start, [])
  {
    var quality := Start;
    buffer := new BytesBuffer();
    while quality > 10
      invariant FreshFinal(enc, quality, buffer.contents) == FreshFinal(enc, Start, [])
      decreases quality
    {
      ghost var before := buffer.contents;
      buffer.Seek(0);
      buffer.Write(Save(enc, quality));
      buffer.Truncate();
      OverwriteFromStart(before, Save(enc, quality));
      var sizeOk := InBand(|buffer.GetValue()|, MinKb, MaxKb);
      if sizeOk {
        break;
      }
      quality := quality - 5;
    }
  }

  // ---------------------------------------------------------------------
  // An encoder on which the two differ
  // ---------------------------------------------------------------------

  /** 13 KB at quality 95, 6 KB below it. */
  function Shrinking(quality: int): seq<byte> {
    if quality == 95 then Zeros(13 * 1024) else Zeros(6 * 1024)
  }

  /**
   * The quality-90 encoding is in band, but the shared buffer still holds
   * 13 KB from quality 95, so every test fails and the returned bytes are
   * 13 KB: the 6 KB quality-15 encoding followed by 7 KB of the stale one.
   * Truncating returns the quality-90 encoding.
   */
  lemma StaleTailCounterexample()
    ensures InBand(|Shrinking(90)|, MinKb, MaxKb)
    ensures |SharedFinal(Shrinking, Start, [])| == 13 * 1024
    ensures FreshFinal(Shrinking, Start, []) == Shrinking(90)
  {
    var b := Overwrite([], 0, Save(Shrinking, 95));
    assert |b| == 13 * 1024;
    OversizedBufferNeverPasses(Shrinking, 90, b);
    SharedFinalLength(Shrinking, 90, b);
  }

  /** While over the limit, the buffer's length stays at the longest encoding written. */
  lemma {:induction false} SharedFinalLength(enc: Encoder, quality: int, buf: seq<byte>)
    requires |buf| > MaxKb * 1024
    requires forall q :: q <= quality ==> |Save(enc, q)| <= |buf|
    ensures |SharedFinal(enc, quality, buf)| == |buf|
    decreases quality
  {
    if quality > 10 {
      var b := Overwrite(buf, 0, Save(enc, quality));
      SharedFinalLength(enc, quality - 5, b);
    }
  }
}
