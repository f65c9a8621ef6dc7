/**
 * What `BitmapRegionLoader.decodeRegion` produces, as a function of the
 * stored-image rectangle, the caller's options, the decoder's answer and the
 * rotation matrix: the reference definition the loader's method is proved
 * against, with the properties the loader promises its callers proved about it.
 */
module Pipeline {
  import opened JavaInt
  import opened Wrappers
  import opened Geometry
  import opened Graphics
  import opened RegionDecoding

  /** How a `decodeRegion` call ends: null, an exception, or a bitmap of some size. */
  datatype Outcome = Null | Throws | Sized(size: Size)

  /** `Math.max(1, options.inSampleSize)`. */
  function SampleSize(inSampleSize: Int32): (s: Int32)
    ensures s >= 1
    ensures inSampleSize >= 1 ==> s == inSampleSize
    ensures inSampleSize < 1 ==> s == 1
  {
    Max(1, inSampleSize)
  }

  /** The matrix the loader keeps for a rotation: none for 0, `postRotate(rotation)` otherwise. */
  function RotateMatrix(rotation: Int32): (m: Option<Matrix>)
    ensures m.Some? <==> rotation != 0
    ensures m.Some? ==> m.value.degrees == rotation
  {
    if rotation == 0 then None else Some(Rotate(rotation))
  }

  /**
   * A sub-bitmap is cut when the caller supplied a reusable buffer and the
   * stored-image rectangle is not exactly the buffer's size times the sample
   * size (`int` products, as the source computes them).
   */
  predicate CropNeeded(p: Rect, buffer: Option<BitmapState>, s: Int32) {
    buffer.Some? && (p.Width() != Mul(buffer.value.size.width, s) || p.Height() != Mul(buffer.value.size.height, s))
  }

  /** The bitmap the decoder hands back, given the caller's buffer. */
  function Decoded(produced: Produced, buffer: Option<BitmapState>): (d: Option<BitmapState>)
    ensures produced.NoBitmap? ==> d.None?
    ensures produced.IntoInBitmap? ==> d == buffer
    ensures produced.NewBitmap? ==> d.Some? && !d.value.recycled && d.value.size == Size(produced.width, produced.height)
  {
    match produced
    case NoBitmap => None
    case IntoInBitmap => buffer
    case NewBitmap(w, h) => Some(BitmapState(Size(w, h), false, false))
  }

  /** The decoded bitmap is unusable: null, or zero pixels wide or high. */
  predicate Degenerate(d: Option<BitmapState>) {
    d.None? || d.value.size.width == 0 || d.value.size.height == 0
  }

  /** The sample-size-scaled size of the stored-image rectangle, as `int` divisions. */
  function SampledWidth(p: Rect, s: Int32): Int32 requires s >= 1 { Div(p.Width(), s) }
  function SampledHeight(p: Rect, s: Int32): Int32 requires s >= 1 { Div(p.Height(), s) }

  /** The over-fetch crop step: None where `createBitmap` throws. */
  function AfterCrop(d: BitmapState, p: Rect, buffer: Option<BitmapState>, s: Int32): (c: Option<BitmapState>)
    requires s >= 1
    ensures !CropNeeded(p, buffer, s) ==> c == Some(d)
    ensures CropNeeded(p, buffer, s) && c.Some? ==>
      c.value.size.width == SampledWidth(p, s) && c.value.size.height == SampledHeight(p, s)
  {
    if CropNeeded(p, buffer, s) then Created(d, SampledWidth(p, s), SampledHeight(p, s), None) else Some(d)
  }

  /** The rotation step: None where `createBitmap` throws. */
  function AfterRotate(c: BitmapState, m: Option<Matrix>): (r: Option<BitmapState>)
    ensures m.None? ==> r == Some(c)
    ensures m.Some? && r.Some? ==> r.value.size == MappedSize(c.size, m)
  {
    if m.None? then Some(c) else Created(c, c.size.width, c.size.height, m)
  }

  /** The crop step followed by the rotation step, on a usable decoded bitmap `d`. */
  function Reshaped(d: BitmapState, p: Rect, buffer: Option<BitmapState>, s: Int32, m: Option<Matrix>): (o: Outcome)
    requires s >= 1
    ensures o != Null
  {
    var c := AfterCrop(d, p, buffer, s);
    if c.None? then Throws
    else
      var r := AfterRotate(c.value, m);
      if r.None? then Throws else Sized(r.value.size)
  }

  /**
   * One bitmap `decodeRegion` holds in its local `bitmap`: its state when it
   * was obtained, and whether `createBitmap` handed back the bitmap held
   * before it instead of a new one.
   */
  datatype Hold = Hold(state: BitmapState, reused: bool)

  /**
   * The bitmaps `decodeRegion` holds in turn once a usable bitmap `d` has
   * been decoded: `d`, then the cropped bitmap when a crop is needed, then the
   * rotated bitmap when there is a matrix, stopping at the first
   * `createBitmap` that throws.
   */
  function Held(d: BitmapState, p: Rect, buffer: Option<BitmapState>, s: Int32, m: Option<Matrix>): (h: seq<Hold>)
    requires s >= 1
    ensures 1 <= |h| <= 3 && h[0] == Hold(d, false)
  {
    var c := AfterCrop(d, p, buffer, s);
    var crop := if CropNeeded(p, buffer, s) && c.Some? then
      [Hold(c.value, SharesSource(d, SampledWidth(p, s), SampledHeight(p, s), None))] else [];
    if c.None? then [Hold(d, false)]
    else
      var r := AfterRotate(c.value, m);
      var rotate := if m.Some? && r.Some? then
        [Hold(r.value, SharesSource(c.value, c.value.size.width, c.value.size.height, m))] else [];
      [Hold(d, false)] + crop + rotate
  }

  /**
   * The bitmaps held account for the outcome: every step the pipeline takes
   * adds one bitmap, an exception cuts the list short, and a bitmap result is
   * the last bitmap held.
   */
  lemma HeldFollowsOutcome(d: BitmapState, p: Rect, buffer: Option<BitmapState>, s: Int32, m: Option<Matrix>)
    requires s >= 1
    ensures var h := Held(d, p, buffer, s, m);
      var steps := 1 + (if CropNeeded(p, buffer, s) then 1 else 0) + (if m.Some? then 1 else 0);
      && (Reshaped(d, p, buffer, s, m) == Throws <==> |h| < steps)
      && (|h| <= steps)
      && (Reshaped(d, p, buffer, s, m).Sized? ==> Reshaped(d, p, buffer, s, m).size == h[|h| - 1].state.size)
  {
  }

  /** The rotation entry `Held` appends to the bitmaps held after the crop. */
  lemma HeldSplits(d: BitmapState, p: Rect, buffer: Option<BitmapState>, s: Int32, m: Option<Matrix>)
    requires s >= 1
    ensures var c := AfterCrop(d, p, buffer, s);
      var h0 := Held(d, p, buffer, s, None);
      && (c.None? ==> Held(d, p, buffer, s, m) == h0 && Reshaped(d, p, buffer, s, m) == Throws)
      && (c.Some? ==>
            var r := AfterRotate(c.value, m);
            && Held(d, p, buffer, s, m) ==
                 h0 + (if m.Some? && r.Some? then
                         [Hold(r.value, SharesSource(c.value, c.value.size.width, c.value.size.height, m))] else [])
            && Reshaped(d, p, buffer, s, m) == (if r.None? then Throws else Sized(r.value.size)))
  {
  }

  /**
   * The outcome of `decodeRegion` for stored-image rectangle `p`, raw
   * `inSampleSize`, the caller's buffer, the decoder's response, the platform
   * check `sdkAtLeastO` (Android O or later) and the loader's matrix `m`.
   */
  function Expected(p: Rect, inSampleSize: Int32, buffer: Option<BitmapState>, resp: Response,
                    sdkAtLeastO: bool, m: Option<Matrix>): Outcome
  {
    var d := Decoded(resp.produced, buffer);
    if p.IsEmpty() || Degenerate(d) || (sdkAtLeastO && resp.outConfig != Argb8888) then Null
    else Reshaped(d.value, p, buffer, SampleSize(inSampleSize), m)
  }

  /**
   * `decodeRegion` returns null exactly for an empty stored-image rectangle, a
   * null or zero-sized decode, or (from Android O) a config other than
   * ARGB_8888; the crop and rotate steps never produce null.
   */
  lemma NullExactly(p: Rect, inSampleSize: Int32, buffer: Option<BitmapState>, resp: Response,
                    sdkAtLeastO: bool, m: Option<Matrix>)
    ensures Expected(p, inSampleSize, buffer, resp, sdkAtLeastO, m) == Null
        <==> p.IsEmpty() || Degenerate(Decoded(resp.produced, buffer))
             || (sdkAtLeastO && resp.outConfig != Argb8888)
  {
  }

  /**
   * Without a reusable buffer and without rotation, the result is the new
   * bitmap the decoder produced, at its own size.
   */
  lemma PlainDecodeKeepsSize(p: Rect, inSampleSize: Int32, resp: Response, sdkAtLeastO: bool, size: Size)
    requires Expected(p, inSampleSize, None, resp, sdkAtLeastO, None) == Sized(size)
    ensures resp.produced.NewBitmap? && size == Size(resp.produced.width, resp.produced.height)
  {
  }

  /**
   * An exception comes only from a crop or a rotation; without a buffer and
   * without rotation `decodeRegion` never throws.
   */
  lemma ThrowsOnlyWhenReshaping(p: Rect, inSampleSize: Int32, buffer: Option<BitmapState>, resp: Response,
                                sdkAtLeastO: bool, m: Option<Matrix>)
    requires Expected(p, inSampleSize, buffer, resp, sdkAtLeastO, m) == Throws
    ensures CropNeeded(p, buffer, SampleSize(inSampleSize)) || m.Some?
  {
  }

  /**
   * With a quadrant rotation and its matrix, once the bitmap about to be
   * rotated has the sampled size of the stored-image rectangle (a crop made
   * it so, or the decoder produced exactly that), the result has the sampled
   * size of the logical request: width and height are not exchanged by the
   * round trip through the stored orientation.
   */
  lemma {:induction false} FinalSizeIsLogicalRequest(
    r: Rect, rotation: Int32, w: Int32, h: Int32,
    inSampleSize: Int32, buffer: Option<BitmapState>, resp: Response, sdkAtLeastO: bool, size: Size)
    requires IsQuadrant(rotation)
    requires var p := ToPhysical(r, rotation, w, h);
      Expected(p, inSampleSize, buffer, resp, sdkAtLeastO, RotateMatrix(rotation)) == Sized(size)
    requires var p := ToPhysical(r, rotation, w, h);
      var s := SampleSize(inSampleSize);
      var d := Decoded(resp.produced, buffer);
      CropNeeded(p, buffer, s)
      || (d.Some? && d.value.size.width == SampledWidth(p, s) && d.value.size.height == SampledHeight(p, s))
    ensures var s := SampleSize(inSampleSize);
      size.width == Div(r.Width(), s) && size.height == Div(r.Height(), s)
  {
    var p := ToPhysical(r, rotation, w, h);
    var s := SampleSize(inSampleSize);
    var m := RotateMatrix(rotation);
    var c := AfterCrop(Decoded(resp.produced, buffer).value, p, buffer, s);
    assert c.value.size.width == SampledWidth(p, s) && c.value.size.height == SampledHeight(p, s);
    assert size == MappedSize(c.value.size, m);
    ShapeFollowsRotation(r, rotation, w, h);
    if SwapsAxes(rotation) {
      assert m.value.Transposes();
    } else {
      assert m.None? || !m.value.Transposes();
    }
  }
}
