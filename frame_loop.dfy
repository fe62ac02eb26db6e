/** The per-tick branching of `loop` in `startBackgroundReplacement`
    (script.js): pass-through of the raw video, compositing when the mask is
    usable, nothing at all when it is not, and the raw video again when any
    statement of the tick throws. What a tick draws is abstracted to which
    picture ends up on the output canvas; a tick that draws nothing leaves
    the previous picture in place. */
module FrameLoop {
  import opened Grid

  /** A mask value must exceed this somewhere for the mask to be used. */
  const ValidMaskLevel: Byte := 50

  /** `data.some((v, i) => !(i % 4) && v > 50)`, started at index `i`. */
  function SomeFrom(data: seq<Byte>, i: nat): bool
    decreases |data| - i
  {
    if i >= |data| then false
    else (i % 4 == 0 && data[i] > ValidMaskLevel) || SomeFrom(data, i + 1)
  }

  /** `hasValidMask`: some pixel's first channel is above 50. */
  function HasValidMask(data: seq<Byte>): bool
  {
    SomeFrom(data, 0)
  }

  /** What the output canvas shows. */
  datatype Picture =
    | Blank                      // nothing drawn yet
    | Video                      // the raw camera frame
    | Composite(mask: seq<Byte>) // `compositeFrame` with this mask

  /** Where, if anywhere, a statement of the tick's `try` block threw. */
  datatype Fault =
    | NoFault
    | EarlyFault   // before the mask is assigned: drawing the background, or the pass-through draw
    | LateFault    // after it: inside `compositeFrame`, or updating the FPS read-out

  /** The state `loop` carries from one tick to the next. */
  datatype LoopState = LoopState(maskData: Option<seq<Byte>>, shown: Picture)

  const Initial := LoopState(None, Blank)

  /** The picture a tick leaves on the canvas, or `None` when it draws
      nothing. `mask` is what `getSegmentationMask` returned this tick. */
  function Drawn(showOriginal: bool, fault: Fault, mask: Option<seq<Byte>>): Option<Picture>
  {
    if fault != NoFault then Some(Video)
    else if showOriginal then Some(Video)
    else if mask.Some? && HasValidMask(mask.value) then Some(Composite(mask.value))
    else None
  }

  /** One run of `loop`. */
  function Tick(s: LoopState, showOriginal: bool, fault: Fault, mask: Option<seq<Byte>>): LoopState
  {
    var maskData := if !showOriginal && fault != EarlyFault then mask else s.maskData;
    match Drawn(showOriginal, fault, mask)
    case Some(p) => LoopState(maskData, p)
    case None => LoopState(maskData, s.shown)
  }

  /** The inputs of one tick. */
  datatype TickInput = TickInput(showOriginal: bool, fault: Fault, mask: Option<seq<Byte>>)

  /** The loop after a sequence of ticks, oldest first. */
  function Run(s: LoopState, inputs: seq<TickInput>): LoopState
    decreases |inputs|
  {
    if inputs == [] then s
    else Run(Tick(s, inputs[0].showOriginal, inputs[0].fault, inputs[0].mask), inputs[1..])
  }
}

/** What the loop promises, proved about its model. */
module FrameLoopProperties {
  import opened Grid
  import opened FrameLoop
  import Segmentation

  /** `SomeFrom` finds exactly the pixel starts from `i` on whose value is
      above 50. */
  lemma {:induction false} SomeFromIff(data: seq<Byte>, i: nat)
    ensures SomeFrom(data, i) <==> exists p :: i <= p < |data| && p % 4 == 0 && data[p] > ValidMaskLevel
    decreases |data| - i
  {
    if i < |data| {
      SomeFromIff(data, i + 1);
      if SomeFrom(data, i + 1) {
        var p :| i + 1 <= p < |data| && p % 4 == 0 && data[p] > ValidMaskLevel;
        assert i <= p;
      }
      if !SomeFrom(data, i) {
        forall p | i <= p < |data| && p % 4 == 0 ensures data[p] <= ValidMaskLevel {
          if p > i {
            assert i + 1 <= p;
          }
        }
      }
    }
  }

  /** `hasValidMask` holds exactly when some pixel's first channel is above
      50. */
  lemma HasValidMaskIff(data: seq<Byte>)
    ensures HasValidMask(data) <==> exists p :: 0 <= p < |data| && p % 4 == 0 && data[p] > ValidMaskLevel
  {
    SomeFromIff(data, 0);
  }

  /** A mask that `hasValidMask` accepts counts at least one non-zero
      pixel in the sense of the sparsity gate's count, taken over the same
      buffer. */
  lemma ValidMaskIsNonEmpty(data: seq<Byte>)
    requires HasValidMask(data)
    ensures Segmentation.NonZeroPixels(data) != {}
  {
    HasValidMaskIff(data);
    var p :| 0 <= p < |data| && p % 4 == 0 && data[p] > ValidMaskLevel;
    assert p in Segmentation.NonZeroPixels(data);
  }

  /** With `showOriginal` set the raw video is drawn, and the mask is
      neither requested nor replaced. */
  lemma PassThrough(s: LoopState, fault: Fault, mask: Option<seq<Byte>>)
    ensures Tick(s, true, fault, mask) == LoopState(s.maskData, Video)
  {
  }

  /** A tick that runs without an exception and without `showOriginal`
      composites exactly when the mask is non-null and valid; otherwise it
      draws nothing and the previous picture stays on screen. */
  lemma CompositeOrNothing(s: LoopState, mask: Option<seq<Byte>>)
    ensures Tick(s, false, NoFault, mask).maskData == mask
    ensures Tick(s, false, NoFault, mask).shown ==
      if mask.Some? && HasValidMask(mask.value) then Composite(mask.value) else s.shown
  {
  }

  /** An exception anywhere in the tick ends with the raw video on screen. */
  lemma FaultShowsVideo(s: LoopState, showOriginal: bool, fault: Fault, mask: Option<seq<Byte>>)
    requires fault != NoFault
    ensures Tick(s, showOriginal, fault, mask).shown == Video
  {
  }

  /** A composite is never shown for a mask that `hasValidMask` rejects:
      if that holds before a run of ticks, it holds after it. */
  lemma {:induction false} ShownCompositesAreValid(s: LoopState, inputs: seq<TickInput>)
    requires s.shown.Composite? ==> HasValidMask(s.shown.mask)
    ensures Run(s, inputs).shown.Composite? ==> HasValidMask(Run(s, inputs).shown.mask)
    decreases |inputs|
  {
    if inputs != [] {
      ShownCompositesAreValid(Tick(s, inputs[0].showOriginal, inputs[0].fault, inputs[0].mask), inputs[1..]);
    }
  }

  /** From the loop's initial state, where nothing is on screen yet, a
      composite on screen after any run of ticks was made from a mask that
      passes `hasValidMask`. */
  lemma ShownCompositesAreValidFromStart(inputs: seq<TickInput>)
    ensures Run(Initial, inputs).shown.Composite? ==> HasValidMask(Run(Initial, inputs).shown.mask)
  {
    ShownCompositesAreValid(Initial, inputs);
  }

  /** After a run whose ticks all have `showOriginal` set, the canvas shows
      the raw video (when there was at least one tick) and the mask is the
      one the run started with. */
  lemma {:induction false} PassThroughRun(s: LoopState, inputs: seq<TickInput>)
    requires forall k :: 0 <= k < |inputs| ==> inputs[k].showOriginal
    ensures Run(s, inputs).maskData == s.maskData
    ensures inputs != [] ==> Run(s, inputs).shown == Video
    decreases |inputs|
  {
    if inputs != [] {
      var t := Tick(s, true, inputs[0].fault, inputs[0].mask);
      PassThroughRun(t, inputs[1..]);
      assert forall k :: 0 <= k < |inputs[1..]| ==> inputs[1..][k] == inputs[k + 1];
    }
  }
}
