/** `compositeFrame` (script.js): the per-pixel alpha blend of the video
    frame over the background, weighted by the blurred mask, with the output
    forced opaque. The offscreen canvases it draws into are created once, on
    the first call, and kept in the module-level `blendCache`.

    The source computes `fd[i] * a + bd[i] * (1 - a)` with `a = md[i] / 255`
    in floating point and stores it into a `Uint8ClampedArray`, which rounds
    to the nearest integer. The exact value is `(f*m + b*(255-m)) / 255`;
    because 255 is odd it is never exactly halfway between two integers, so
    the nearest integer is `(f*m + b*(255-m) + 127) / 255` and needs no
    clamping. */
module Compositing {
  import opened Grid

  lemma ConvexCombination(f: Byte, b: Byte, m: Byte)
    ensures 255 * Min(f, b) <= f * m + b * (255 - m) <= 255 * Max(f, b)
  {
    assert f * m + b * (255 - m) == b * 255 + (f - b) * m;
    if f >= b {
      MulLeft(0, m, f - b);
      MulLeft(m, 255, f - b);
    } else {
      MulLeft(0, m, b - f);
      MulLeft(m, 255, b - f);
    }
  }

  /** The exact blend, scaled by 255: frame weighted by `m`, background by
      `255 - m`. It lies between the two, scaled. */
  function Weighted(f: Byte, b: Byte, m: Byte): (v: int)
    ensures 255 * Min(f, b) <= v <= 255 * Max(f, b)
  {
    ConvexCombination(f, b, m);
    f * m + b * (255 - m)
  }

  /** One colour channel of the blend as stored in the output buffer. */
  function BlendChannel(f: Byte, b: Byte, m: Byte): (r: Byte)
    ensures 255 * r - 127 <= Weighted(f, b, m) <= 255 * r + 127
    ensures Min(f, b) <= r <= Max(f, b)
  {
    (Weighted(f, b, m) + 127) / 255
  }

  /** The output buffer of the blend loop: every colour channel blended
      with the mask's first channel of the same pixel, alpha 255. */
  function Blend(fd: seq<Byte>, bd: seq<Byte>, md: seq<Byte>): (od: seq<Byte>)
    requires |fd| == |bd| == |md|
    ensures |od| == |md|
  {
    seq(|md|, i requires 0 <= i < |md| =>
      if i % 4 == 3 then 255 else BlendChannel(fd[i], bd[i], md[i - i % 4]))
  }

  /** The four channels of the pixel starting at byte `i`. */
  lemma BlendPixelAt(fd: seq<Byte>, bd: seq<Byte>, md: seq<Byte>, i: nat, j: nat)
    requires |fd| == |bd| == |md| && i + 3 < |md| && i == 4 * j
    ensures Blend(fd, bd, md)[i] == BlendChannel(fd[i], bd[i], md[i])
    ensures Blend(fd, bd, md)[i + 1] == BlendChannel(fd[i + 1], bd[i + 1], md[i])
    ensures Blend(fd, bd, md)[i + 2] == BlendChannel(fd[i + 2], bd[i + 2], md[i])
    ensures Blend(fd, bd, md)[i + 3] == 255
  {
    ByteOffset(j, 0);
    ByteOffset(j, 1);
    ByteOffset(j, 2);
    ByteOffset(j, 3);
  }

  /** The blend loop: one pixel, four channels, per iteration, into a fresh
      zero-filled `ImageData`. */
  method BlendPixels(fd: seq<Byte>, bd: seq<Byte>, md: seq<Byte>, width: nat, height: nat) returns (od: seq<Byte>)
    requires |fd| == |bd| == |md| == width * height * 4
    ensures od == Blend(fd, bd, md)
  {
    var o := new Byte[width * height * 4](_ => 0);
    ghost var spec := Blend(fd, bd, md);
    ghost var pixels := width * height;
    assert |md| == pixels * 4;
    var i := 0;
    ghost var j := 0;
    while i < |md|
      invariant 0 <= j <= pixels && i == 4 * j && o.Length == |md|
      invariant forall k {:trigger o[k]} :: 0 <= k < i ==> o[k] == spec[k]
    {
      BlendPixelAt(fd, bd, md, i, j);
      var a := md[i];
      o[i] := BlendChannel(fd[i], bd[i], a);
      o[i + 1] := BlendChannel(fd[i + 1], bd[i + 1], a);
      o[i + 2] := BlendChannel(fd[i + 2], bd[i + 2], a);
      o[i + 3] := 255;
      i, j := i + 4, j + 1;
    }
    od := o[..];
  }

  /** The module-level `blendCache`: the three offscreen canvases, created
      together on the first call with that call's size and never replaced. */
  class BlendCache {
    /** `None` while `tempCanvas` is null; afterwards the canvases' size. */
    var surfaces: Option<(nat, nat)>

    constructor ()
      ensures surfaces == None
    {
      surfaces := None;
    }

    /** Step 1 of `compositeFrame`: initialise the cache if it is empty. */
    method Prepare(width: nat, height: nat)
      modifies this
      ensures old(surfaces).Some? ==> surfaces == old(surfaces)
      ensures old(surfaces).None? ==> surfaces == Some((width, height))
    {
      if surfaces.None? {
        surfaces := Some((width, height));
      }
    }
  }

  /** `compositeFrame`: prepare the cache, blur the mask (a canvas filter,
      given here as `blur`), blend, and return the image put on the output
      canvas. `frame` and `background` are the pixels read back from the
      frame canvas and the background canvas. */
  method CompositeFrame(cache: BlendCache, frame: seq<Byte>, background: seq<Byte>, mask: seq<Byte>,
                        width: nat, height: nat, blur: seq<Byte> -> seq<Byte>)
    returns (out: seq<Byte>)
    requires |frame| == |background| == |blur(mask)| == width * height * 4
    modifies cache
    ensures old(cache.surfaces).Some? ==> cache.surfaces == old(cache.surfaces)
    ensures old(cache.surfaces).None? ==> cache.surfaces == Some((width, height))
    ensures out == Blend(frame, background, blur(mask))
  {
    cache.Prepare(width, height);
    var blurredMask := blur(mask);
    out := BlendPixels(frame, background, blurredMask, width, height);
  }
}

/** What the blend promises, proved about its specification. */
module CompositingProperties {
  import opened Grid
  import opened Compositing

  /** A fully opaque mask value passes the frame through; a zero mask value
      passes the background through. */
  lemma BlendChannelEndpoints(f: Byte, b: Byte)
    ensures BlendChannel(f, b, 255) == f
    ensures BlendChannel(f, b, 0) == b
  {
    assert Weighted(f, b, 255) == 255 * f;
    assert Weighted(f, b, 0) == 255 * b;
  }

  /** The output is fully opaque. */
  lemma BlendOpaque(fd: seq<Byte>, bd: seq<Byte>, md: seq<Byte>)
    requires |fd| == |bd| == |md|
    ensures forall i :: 0 <= i < |md| && i % 4 == 3 ==> Blend(fd, bd, md)[i] == 255
  {
  }

  /** Where the mask is 255 the output shows the frame's colour. */
  lemma BlendFullMask(fd: seq<Byte>, bd: seq<Byte>, md: seq<Byte>, i: nat)
    requires |fd| == |bd| == |md| && i < |md| && i % 4 != 3
    requires md[i - i % 4] == 255
    ensures Blend(fd, bd, md)[i] == fd[i]
  {
    BlendChannelEndpoints(fd[i], bd[i]);
  }

  /** Where the mask is 0 the output shows the background's colour. */
  lemma BlendEmptyMask(fd: seq<Byte>, bd: seq<Byte>, md: seq<Byte>, i: nat)
    requires |fd| == |bd| == |md| && i < |md| && i % 4 != 3
    requires md[i - i % 4] == 0
    ensures Blend(fd, bd, md)[i] == bd[i]
  {
    BlendChannelEndpoints(fd[i], bd[i]);
  }

  /** A mask that is 255 everywhere yields the frame, made opaque. */
  lemma BlendAllForeground(fd: seq<Byte>, bd: seq<Byte>, md: seq<Byte>)
    requires |fd| == |bd| == |md|
    requires forall i :: 0 <= i < |md| ==> md[i] == 255
    ensures forall i :: 0 <= i < |md| ==> Blend(fd, bd, md)[i] == if i % 4 == 3 then 255 else fd[i]
  {
    forall i | 0 <= i < |md| && i % 4 != 3 ensures Blend(fd, bd, md)[i] == fd[i] {
      BlendFullMask(fd, bd, md, i);
    }
  }

  /** A mask that is 0 everywhere yields the background, made opaque. */
  lemma BlendAllBackground(fd: seq<Byte>, bd: seq<Byte>, md: seq<Byte>)
    requires |fd| == |bd| == |md|
    requires forall i :: 0 <= i < |md| ==> md[i] == 0
    ensures forall i :: 0 <= i < |md| ==> Blend(fd, bd, md)[i] == if i % 4 == 3 then 255 else bd[i]
  {
    forall i | 0 <= i < |md| && i % 4 != 3 ensures Blend(fd, bd, md)[i] == bd[i] {
      BlendEmptyMask(fd, bd, md, i);
    }
  }

  /** Each output channel depends only on the same channel of the frame and
      the background and on the mask value of the same pixel. */
  lemma BlendLocal(fd: seq<Byte>, bd: seq<Byte>, md: seq<Byte>, fd': seq<Byte>, bd': seq<Byte>, md': seq<Byte>, i: nat)
    requires |fd| == |bd| == |md| == |fd'| == |bd'| == |md'| && i < |md|
    requires fd[i] == fd'[i] && bd[i] == bd'[i] && md[i - i % 4] == md'[i - i % 4]
    ensures Blend(fd, bd, md)[i] == Blend(fd', bd', md')[i]
  {
  }

  /** Where frame and background agree, the blend leaves the colour alone,
      whatever the mask. */
  lemma BlendAgreeing(fd: seq<Byte>, bd: seq<Byte>, md: seq<Byte>, i: nat)
    requires |fd| == |bd| == |md| && i < |md| && i % 4 != 3
    requires fd[i] == bd[i]
    ensures Blend(fd, bd, md)[i] == fd[i]
  {
  }
}
