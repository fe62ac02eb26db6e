/** The part of `getSegmentationMask` (script.js) that works on pixels:
    the sparsity gate that rejects a nearly empty mask, and the hand-off to
    `improveMask`. The segmenter itself, the canvas read-back and the
    upscaling `drawImage` are browser calls; they appear here as the
    segmenter's output and as an `upscale` parameter. */
module Segmentation {
  import opened Grid
  import opened MaskRefinement

  /** Fewer non-zero pixels than this and the mask counts as empty. */
  const MinNonZeroPixels: nat := 50

  /** What one call of the segmenter yields, read back as RGBA at the
      scaled size. */
  datatype SegmenterOutput =
    | NoMask                    // the promise resolved with no canvas
    | Canvas(data: seq<Byte>)   // a canvas or an ImageBitmap, read back
    | UnknownKind               // neither a canvas nor an ImageBitmap
    | Failed                    // an exception reached the catch block

  /** Byte offsets of the pixels, below `limit`, whose first channel is
      non-zero. */
  ghost function NonZeroBefore(data: seq<Byte>, limit: int): set<nat>
  {
    set p: nat | p < limit && p < |data| && p % 4 == 0 && data[p] > 0
  }

  /** The pixels of an RGBA buffer whose first channel is non-zero. */
  ghost function NonZeroPixels(data: seq<Byte>): set<nat>
  {
    NonZeroBefore(data, |data|)
  }

  /** Byte offsets below `limit` where a pixel starts. */
  ghost function PixelStarts(limit: nat): set<nat>
  {
    set p: nat | p < limit && p % 4 == 0
  }

  /** Scanning one more pixel adds it to the count exactly when its first
      channel is non-zero. */
  lemma NonZeroStep(data: seq<Byte>, i: nat)
    requires i < |data| && i % 4 == 0
    ensures NonZeroBefore(data, i + 4) == NonZeroBefore(data, i) + (if data[i] > 0 then {i} else {})
    ensures i !in NonZeroBefore(data, i)
  {
  }

  /** The counting loop of the gate. */
  method CountNonZeroPixels(data: seq<Byte>) returns (n: nat)
    ensures n == |NonZeroPixels(data)|
  {
    n := 0;
    var i := 0;
    while i < |data|
      invariant i % 4 == 0
      invariant n == |NonZeroBefore(data, i)|
    {
      NonZeroStep(data, i);
      if data[i] > 0 {
        n := n + 1;
      }
      i := i + 4;
    }
    assert NonZeroBefore(data, i) == NonZeroPixels(data);
  }

  /** A buffer of `limit` bytes has `ceil(limit / 4)` pixels. */
  lemma {:induction false} PixelStartsCount(limit: nat)
    ensures |PixelStarts(limit)| == (limit + 3) / 4
  {
    if limit > 0 {
      PixelStartsCount(limit - 1);
      if (limit - 1) % 4 == 0 {
        assert PixelStarts(limit) == PixelStarts(limit - 1) + {limit - 1};
      } else {
        assert PixelStarts(limit) == PixelStarts(limit - 1);
      }
    }
  }

  lemma {:induction false} SubsetCardinality(a: set<nat>, b: set<nat>)
    requires a <= b
    ensures |a| <= |b|
  {
    if a != {} {
      var x :| x in a;
      SubsetCardinality(a - {x}, b - {x});
    }
  }

  /** No more pixels are non-zero than the buffer has pixels. */
  lemma NonZeroPixelsBound(data: seq<Byte>)
    ensures |NonZeroPixels(data)| <= (|data| + 3) / 4
  {
    PixelStartsCount(|data|);
    SubsetCardinality(NonZeroPixels(data), PixelStarts(|data|));
  }

  /** `getSegmentationMask`, from the segmenter's output on: null for no
      mask, an unknown kind, an exception, or fewer than 50 non-zero
      pixels; otherwise the refined mask, upscaled to the output size. */
  method GetSegmentationMask(output: SegmenterOutput, width: nat, height: nat, upscale: seq<Byte> -> seq<Byte>)
    returns (r: Option<seq<Byte>>)
    requires output.Canvas? ==> |output.data| == width * height * 4
    ensures r.Some? <==> output.Canvas? && |NonZeroPixels(output.data)| >= MinNonZeroPixels
    ensures r.Some? ==> r.value == upscale(Improved(output.data, width, height))
  {
    if !output.Canvas? {
      return None;
    }
    var nonZeroPixels := CountNonZeroPixels(output.data);
    if nonZeroPixels < MinNonZeroPixels {
      return None;
    }
    // 50 non-zero pixels need a non-empty buffer, so neither side is 0.
    NonZeroPixelsBound(output.data);
    assert width * height > 0;
    var improvedSmall := ImproveMask(output.data, width, height);
    r := Some(upscale(improvedSmall));
  }
}

/** What the gate promises, proved about its specification. */
module SegmentationProperties {
  import opened Grid
  import opened Segmentation

  /** The count is zero exactly when every pixel's first channel is zero. */
  lemma NoNonZeroPixelsIff(data: seq<Byte>)
    ensures NonZeroPixels(data) == {} <==> forall p :: 0 <= p < |data| && p % 4 == 0 ==> data[p] == 0
  {
    if NonZeroPixels(data) == {} {
      forall p | 0 <= p < |data| && p % 4 == 0 ensures data[p] == 0 {
        assert p !in NonZeroPixels(data);
      }
    } else {
      var p :| p in NonZeroPixels(data);
    }
  }

  /** A buffer of fewer than 50 pixels never passes the gate. */
  lemma SmallMaskRejected(data: seq<Byte>)
    requires |data| <= 4 * (MinNonZeroPixels - 1)
    ensures |NonZeroPixels(data)| < MinNonZeroPixels
  {
    NonZeroPixelsBound(data);
  }

  /** An all-black mask never passes the gate. */
  lemma BlackMaskRejected(data: seq<Byte>)
    requires forall p :: 0 <= p < |data| ==> data[p] == 0
    ensures |NonZeroPixels(data)| < MinNonZeroPixels
  {
    NoNonZeroPixelsIff(data);
  }
}
