/**
 * `BitmapRegionLoader`: a region decoder that presents the stored image
 * rotated by a fixed angle, crops over-fetched results when a reusable
 * bitmap is supplied, and rotates every decoded region into the logical
 * orientation.
 */
module Loader {
  import opened JavaInt
  import opened Wrappers
  import opened Geometry
  import opened Graphics
  import opened RegionDecoding
  import opened Pipeline

  /** How `decodeRegion` ends: null, a thrown IllegalArgumentException, or a bitmap. */
  datatype Returned = ReturnedNull | Threw | ReturnedBitmap(bitmap: Bitmap)

  /** The observable outcome of a call, to compare with `Pipeline.Expected`. */
  function Summary(r: Returned): Outcome {
    match r
    case ReturnedNull => Null
    case Threw => Throws
    case ReturnedBitmap(b) => Sized(Size(b.width, b.height))
  }

  /** `checkConfig` passes: before Android O always, from O on when the probe reports ARGB_8888. */
  predicate ProbePasses(engine: Request -> Response, sdkAtLeastO: bool) {
    !sdkAtLeastO || engine(ProbeRequest()).outConfig == Argb8888
  }

  /** A stream the loader accepts: a decoder opens on it, with positive dimensions, and the probe passes. */
  predicate Opens(image: Option<Image>, sdkAtLeastO: bool) {
    image.Some? && 0 < image.value.width && 0 < image.value.height
    && ProbePasses(image.value.engine, sdkAtLeastO)
  }

  /** The caller's reusable bitmap; null options stand for fresh ones, which have none. */
  function InBitmapOf(options: Options?): Bitmap?
    reads options
  {
    if options == null then null else options.inBitmap
  }

  /** The caller's raw `inSampleSize`; fresh options have 0. */
  function SampleOf(options: Options?): Int32
    reads options
  {
    if options == null then 0 else options.inSampleSize
  }

  function StateOf(b: Bitmap?): Option<BitmapState>
    reads b
  {
    if b == null then None else Some(b.State())
  }

  /**
   * Ownership of the bitmaps a decode has held, in order: each one that is not
   * the caller's buffer has been recycled exactly when something replaced it.
   */
  ghost predicate RecycledUnlessHeld(chain: seq<Bitmap>, inBitmap: Bitmap?)
    reads set b <- chain
  {
    forall i :: 0 <= i < |chain| && chain[i] != inBitmap ==>
      (chain[i].recycled <==> chain[i] != chain[|chain| - 1])
  }

  /** `b` has the size and mutability of `state`. */
  predicate Shaped(b: Bitmap, state: BitmapState) {
    b.width == state.size.width && b.height == state.size.height && b.mutable == state.mutable
  }

  /**
   * `chain` is a run of bitmaps as `h` describes it: one per entry, each shaped
   * as recorded, and each the same object as the one before exactly where
   * `createBitmap` handed that one back.
   */
  predicate HeldAs(chain: seq<Bitmap>, h: seq<Hold>) {
    && |chain| == |h|
    && (forall i :: 0 <= i < |chain| ==> Shaped(chain[i], h[i].state))
    && (forall i :: 0 < i < |chain| ==> (chain[i] == chain[i - 1] <==> h[i].reused))
  }

  /** One more bitmap held, shaped and linked to the one before as `e` records, extends `HeldAs`. */
  lemma HeldAsExtend(chain: seq<Bitmap>, h: seq<Hold>, b: Bitmap, e: Hold)
    requires HeldAs(chain, h) && |chain| > 0
    requires Shaped(b, e.state) && (b == chain[|chain| - 1] <==> e.reused)
    ensures HeldAs(chain + [b], h + [e])
  {
    var c, g := chain + [b], h + [e];
    forall i | 0 < i < |c|
      ensures c[i] == c[i - 1] <==> g[i].reused
    {
      if i < |chain| {
        assert c[i] == chain[i] && c[i - 1] == chain[i - 1] && g[i] == h[i];
      }
    }
  }

  /**
   * The bitmaps of `chain` after the first that are not the one before them:
   * the ones `createBitmap` allocated along the way.
   */
  function Replacements(chain: seq<Bitmap>): (r: seq<Bitmap>)
    ensures |r| <= |chain|
  {
    if |chain| <= 1 then []
    else Replacements(chain[..|chain| - 1])
         + (if chain[|chain| - 1] != chain[|chain| - 2] then [chain[|chain| - 1]] else [])
  }

  /** Holding one more bitmap adds it to the replacements exactly when it is a new object. */
  lemma ReplacementsExtend(chain: seq<Bitmap>, b: Bitmap)
    requires |chain| > 0
    ensures Replacements(chain + [b]) == Replacements(chain) + (if b != chain[|chain| - 1] then [b] else [])
  {
    assert (chain + [b])[..|chain|] == chain;
  }

  /**
   * One reshaping step of `decodeRegion` (the crop, then the rotation):
   * `createBitmap` from the bitmap held, then recycle the bitmap held unless it
   * is the caller's buffer or `createBitmap` handed it back. A null result
   * stands for the exception `createBitmap` throws, before anything is recycled.
   */
  method Supersede(held: Bitmap, inBitmap: Bitmap?, width: Int32, height: Int32, m: Option<Matrix>,
                   ghost chain: seq<Bitmap>, ghost log: Allocations)
    returns (next: Bitmap?)
    requires |chain| > 0 && chain[|chain| - 1] == held
    requires RecycledUnlessHeld(chain, inBitmap)
    modifies (if held == inBitmap then {} else {held}), log`made
    ensures log.made == old(log.made) + (if next != null && next != held then [next] else [])
    ensures next == null <==> Rejects(old(held.State()), width, height)
    ensures next == null ==> held.recycled == old(held.recycled)
    ensures next != null ==>
      && next.State() == Created(old(held.State()), width, height, m).value
      && (next == held <==> SharesSource(old(held.State()), width, height, m))
      && (next == held || fresh(next))
      && RecycledUnlessHeld(chain + [next], inBitmap)
  {
    next := CreateBitmap(held, width, height, m, log);
    if next != null && held != inBitmap && held != next {
      held.Recycle();
    }
    if next != null {
      forall i | 0 <= i < |chain| + 1 && (chain + [next])[i] != inBitmap
        ensures (chain + [next])[i].recycled <==> (chain + [next])[i] != next
      {
        if i < |chain| && chain[i] != held {
          assert chain[i] != next;
        }
      }
    }
  }

  /**
   * The opening of `decodeRegion`: fresh options for null ones, the output
   * format forced to ARGB_8888, the sample size clamped to at least 1, and
   * the area the caller's buffer covers before sampling (-1 without a buffer).
   */
  method PrepareOptions(options: Options?)
    returns (opts: Options, sampleSize: Int32, unsampledInBitmapWidth: Int32, unsampledInBitmapHeight: Int32)
    modifies {options}`inPreferredConfig
    ensures options != null ==> opts == options
    ensures options == null ==> fresh(opts) && opts.outConfig == None
    ensures opts.inPreferredConfig == Argb8888
    ensures opts.inSampleSize == SampleOf(options) && opts.inBitmap == InBitmapOf(options)
    ensures sampleSize == SampleSize(SampleOf(options))
    ensures opts.inBitmap != null ==>
      unsampledInBitmapWidth == Mul(opts.inBitmap.width, sampleSize)
      && unsampledInBitmapHeight == Mul(opts.inBitmap.height, sampleSize)
  {
    if options == null {
      opts := new Options();
    } else {
      opts := options;
    }
    opts.inPreferredConfig := Argb8888;
    unsampledInBitmapWidth := -1;
    unsampledInBitmapHeight := -1;
    sampleSize := Max(1, opts.inSampleSize);
    if opts.inBitmap != null {
      unsampledInBitmapWidth := Mul(opts.inBitmap.width, sampleSize);
      unsampledInBitmapHeight := Mul(opts.inBitmap.height, sampleSize);
    }
  }

  class BitmapRegionLoader {
    var valid: bool
    var rotation: Int32
    var originalWidth: Int32
    var originalHeight: Int32
    /** Scratch rectangle, overwritten by every decode. */
    var tempRect: Rect
    var inputStream: InputStream
    /** Null once `destroy` has run. */
    var decoder: RegionDecoder?
    var rotateMatrix: Option<Matrix>

    /** A loader handed out by `newInstance`, before or after `destroy`. */
    ghost predicate Valid()
      reads this, decoder
    {
      valid && 0 < originalWidth && 0 < originalHeight
      && rotateMatrix == RotateMatrix(rotation)
      && (decoder != null ==>
            !decoder.recycled && decoder.width == originalWidth && decoder.height == originalHeight)
    }

    /**
     * `newInstance(in, rotation)`: null for a null stream or a stream the
     * loader does not accept; otherwise a valid loader with that rotation and
     * a rotation matrix exactly when the rotation is not 0.
     */
    static method NewInstance(stream: InputStream?, rotation: Int32, sdkAtLeastO: bool)
      returns (loader: BitmapRegionLoader?)
      ensures loader != null <==> stream != null && Opens(stream.image, sdkAtLeastO)
      ensures loader != null ==>
        && fresh(loader) && loader.Valid()
        && loader.decoder != null && fresh(loader.decoder)
        && loader.decoder.engine == stream.image.value.engine
        && loader.originalWidth == stream.image.value.width && loader.originalHeight == stream.image.value.height
        && loader.inputStream == stream
        && loader.rotation == rotation
        && (loader.rotateMatrix.Some? <==> rotation != 0)
    {
      if stream == null {
        return null;
      }
      var l := new BitmapRegionLoader(stream, sdkAtLeastO);
      if l.valid {
        l.rotation := rotation;
        if l.rotation != 0 {
          l.rotateMatrix := Some(Rotate(rotation));
        }
        return l;
      }
      return null;
    }

    /** `newInstance(in)`: the same with rotation 0. */
    static method NewUnrotatedInstance(stream: InputStream?, sdkAtLeastO: bool)
      returns (loader: BitmapRegionLoader?)
      ensures loader != null <==> stream != null && Opens(stream.image, sdkAtLeastO)
      ensures loader != null ==> fresh(loader) && loader.Valid() && loader.rotation == 0 && loader.rotateMatrix.None?
    {
      loader := NewInstance(stream, 0, sdkAtLeastO);
    }

    /**
     * The private constructor: opens a decoder on the stream, records its
     * dimensions, and is valid exactly when they are positive and the probe passes.
     */
    constructor (stream: InputStream, sdkAtLeastO: bool)
      ensures inputStream == stream && rotation == 0 && rotateMatrix.None?
      ensures valid <==> Opens(stream.image, sdkAtLeastO)
      ensures stream.image.None? ==> decoder == null
      ensures stream.image.Some? ==>
        && decoder != null && fresh(decoder) && !decoder.recycled
        && decoder.engine == stream.image.value.engine
        && decoder.width == originalWidth == stream.image.value.width
        && decoder.height == originalHeight == stream.image.value.height
    {
      valid := false;
      rotation := 0;
      originalWidth := 0;
      originalHeight := 0;
      tempRect := Rect(0, 0, 0, 0);
      inputStream := stream;
      decoder := null;
      rotateMatrix := None;
      new;
      if stream.image.Some? {
        decoder := new RegionDecoder(stream.image.value);
        originalWidth := decoder.width;
        originalHeight := decoder.height;
        if originalWidth > 0 && originalHeight > 0 {
          valid := CheckConfig(sdkAtLeastO);
        }
      }
    }

    /**
     * `checkConfig`: from Android O on, decodes the one-pixel probe region
     * asking for ARGB_8888 and passes only if the decoder reports ARGB_8888.
     */
    method CheckConfig(sdkAtLeastO: bool) returns (ok: bool)
      requires decoder != null && !decoder.recycled
      modifies this`tempRect, decoder`calls, decoder`lastReturned
      ensures ok <==> ProbePasses(decoder.engine, sdkAtLeastO)
      ensures sdkAtLeastO ==> tempRect == ProbeRequest().rect && decoder.calls == old(decoder.calls) + 1
      ensures !sdkAtLeastO ==> tempRect == old(tempRect) && decoder.calls == old(decoder.calls)
    {
      if !sdkAtLeastO {
        return true;
      }
      tempRect := Rect(0, 0, 1, 1);
      var options := new Options();
      options.inPreferredConfig := Argb8888;
      var probe := decoder.DecodeRegion(tempRect, options);
      ok := options.outConfig == Some(Argb8888);
    }

    /** `getWidth`: the logical width, the stored height for a quarter turn. */
    function GetWidth(): (lw: Int32)
      reads this, decoder
      requires Valid()
      ensures 0 < lw
      ensures lw == LogicalWidth(rotation, originalWidth, originalHeight)
    {
      LogicalWidth(rotation, originalWidth, originalHeight)
    }

    /** `getHeight`: the logical height, the stored width for a quarter turn. */
    function GetHeight(): (lh: Int32)
      reads this, decoder
      requires Valid()
      ensures 0 < lh
      ensures lh == LogicalHeight(rotation, originalWidth, originalHeight)
    {
      LogicalHeight(rotation, originalWidth, originalHeight)
    }

    /**
     * `decodeRegion(rect, options)` for a logical rectangle `rect`. The ghost
     * `chain` lists the bitmaps the method held, in order: the decoded one,
     * then the cropped one, then the rotated one, as far as it got.
     */
    method DecodeRegion(rect: Rect, options: Options?, sdkAtLeastO: bool, ghost log: Allocations)
      returns (result: Returned, ghost chain: seq<Bitmap>)
      requires Valid() && decoder != null
      modifies this`tempRect, {options}`inPreferredConfig, {options}`outConfig
      modifies decoder`calls, decoder`lastReturned, log`made
      ensures Valid()
      // the scratch rectangle holds the stored-image rectangle of the request
      ensures tempRect == ToPhysical(rect, rotation, originalWidth, originalHeight)
      // the output format is forced
      ensures options != null ==> options.inPreferredConfig == Argb8888
      // an empty stored-image rectangle is rejected before the decoder is called
      ensures decoder.calls == old(decoder.calls) + (if tempRect.IsEmpty() then 0 else 1)
      // the outcome is the reference pipeline's
      ensures Summary(result) ==
        Expected(tempRect, SampleOf(options), old(StateOf(InBitmapOf(options))),
                 decoder.engine(RequestOf(tempRect, SampleOf(options), Argb8888, InBitmapOf(options))),
                 sdkAtLeastO, rotateMatrix)
      // the decoder's answer is reported in `outConfig` whenever it is called
      ensures options != null ==>
        options.outConfig ==
          (if tempRect.IsEmpty() then old(options.outConfig)
           else Some(decoder.engine(RequestOf(tempRect, SampleOf(options), Argb8888, InBitmapOf(options))).outConfig))
      // the bitmaps held: none when null is returned; otherwise the decoded one (the
      // caller's buffer or a new bitmap, as the decoder answered), then one per
      // crop or rotation step taken, as `Pipeline.Held` lists them
      ensures var resp := decoder.engine(RequestOf(tempRect, SampleOf(options), Argb8888, InBitmapOf(options)));
        var d := Decoded(resp.produced, old(StateOf(InBitmapOf(options))));
        && (result.ReturnedNull? ==> chain == [])
        && (!result.ReturnedNull? ==>
              && d.Some?
              && HeldAs(chain, Held(d.value, tempRect, old(StateOf(InBitmapOf(options))),
                                    SampleSize(SampleOf(options)), rotateMatrix))
              && chain[0] == decoder.lastReturned
              && (resp.produced.IntoInBitmap? ==> chain[0] == InBitmapOf(options))
              && (resp.produced.NewBitmap? ==> fresh(chain[0])))
      // the bitmaps `createBitmap` allocated are exactly the replacements in the chain
      ensures log.made == old(log.made) + Replacements(chain)
      // every bitmap held is the caller's buffer or was allocated by this call
      ensures forall b <- chain :: b == InBitmapOf(options) || fresh(b)
      ensures result.ReturnedBitmap? ==> |chain| > 0 && result.bitmap == chain[|chain| - 1]
      // the caller's buffer is never recycled
      ensures InBitmapOf(options) != null ==> InBitmapOf(options).recycled == old(InBitmapOf(options).recycled)
      // any other bitmap held is recycled exactly when it was replaced
      ensures RecycledUnlessHeld(chain, InBitmapOf(options))
      // so a returned bitmap that is not the caller's buffer is live
      ensures result.ReturnedBitmap? && result.bitmap != InBitmapOf(options) ==> !result.bitmap.recycled
    {
      var opts, sampleSize, unsampledInBitmapWidth, unsampledInBitmapHeight := PrepareOptions(options);

      tempRect := ToPhysical(rect, rotation, originalWidth, originalHeight);
      ghost var resp := decoder.engine(RequestOf(tempRect, SampleOf(options), Argb8888, InBitmapOf(options)));
      chain := [];
      if tempRect.IsEmpty() {
        return ReturnedNull, chain;
      }
      result, chain := DecodeThenReshape(opts, sampleSize, unsampledInBitmapWidth, unsampledInBitmapHeight,
                                         sdkAtLeastO, log);
    }

    /**
     * `decodeRegion` from the decode on, once the options are prepared in
     * `opts` and the scratch rectangle is known not to be empty.
     */
    method DecodeThenReshape(opts: Options, sampleSize: Int32,
                             unsampledInBitmapWidth: Int32, unsampledInBitmapHeight: Int32,
                             sdkAtLeastO: bool, ghost log: Allocations)
      returns (result: Returned, ghost chain: seq<Bitmap>)
      requires Valid() && decoder != null && !tempRect.IsEmpty()
      requires opts.inPreferredConfig == Argb8888 && sampleSize == SampleSize(opts.inSampleSize)
      requires opts.inBitmap != null ==>
        unsampledInBitmapWidth == Mul(opts.inBitmap.width, sampleSize)
        && unsampledInBitmapHeight == Mul(opts.inBitmap.height, sampleSize)
      modifies opts`outConfig, decoder`calls, decoder`lastReturned, log`made
      ensures decoder.calls == old(decoder.calls) + 1
      ensures var resp := decoder.engine(RequestOf(tempRect, opts.inSampleSize, Argb8888, opts.inBitmap));
        var d := Decoded(resp.produced, old(StateOf(opts.inBitmap)));
        && opts.outConfig == Some(resp.outConfig)
        && Summary(result) == Expected(tempRect, opts.inSampleSize, old(StateOf(opts.inBitmap)), resp, sdkAtLeastO, rotateMatrix)
        && (result.ReturnedNull? ==> chain == [])
        && (!result.ReturnedNull? ==>
              && d.Some?
              && HeldAs(chain, Held(d.value, tempRect, old(StateOf(opts.inBitmap)), sampleSize, rotateMatrix))
              && chain[0] == decoder.lastReturned
              && (resp.produced.IntoInBitmap? ==> chain[0] == opts.inBitmap)
              && (resp.produced.NewBitmap? ==> fresh(chain[0])))
      ensures log.made == old(log.made) + Replacements(chain)
      ensures forall b <- chain :: b == opts.inBitmap || fresh(b)
      ensures result.ReturnedBitmap? ==> |chain| > 0 && result.bitmap == chain[|chain| - 1]
      ensures opts.inBitmap != null ==> opts.inBitmap.recycled == old(opts.inBitmap.recycled)
      ensures RecycledUnlessHeld(chain, opts.inBitmap)
      ensures result.ReturnedBitmap? && result.bitmap != opts.inBitmap ==> !result.bitmap.recycled
    {
      ghost var buffer := StateOf(opts.inBitmap);
      chain := [];
      var bitmap := DecodeUsable(opts, sdkAtLeastO);
      if bitmap == null {
        return ReturnedNull, chain;
      }
      chain := [bitmap];
      result, chain := Reshape(bitmap, opts.inBitmap, sampleSize, unsampledInBitmapWidth, unsampledInBitmapHeight,
                               buffer, chain, log);
    }

    /**
     * The decode of `decodeRegion`: the decoder's bitmap for the scratch
     * rectangle, or null where it is null, has no pixels, or (from Android O)
     * comes in a config other than ARGB_8888.
     */
    method DecodeUsable(opts: Options, sdkAtLeastO: bool) returns (bitmap: Bitmap?)
      requires decoder != null && !decoder.recycled
      modifies opts`outConfig, decoder`calls, decoder`lastReturned
      ensures decoder.calls == old(decoder.calls) + 1
      ensures bitmap != null ==> bitmap == decoder.lastReturned
      ensures var resp := decoder.engine(RequestOf(tempRect, opts.inSampleSize, opts.inPreferredConfig, opts.inBitmap));
        var d := Decoded(resp.produced, StateOf(opts.inBitmap));
        && opts.outConfig == Some(resp.outConfig)
        && (bitmap == null <==> Degenerate(d) || (sdkAtLeastO && resp.outConfig != Argb8888))
        && (bitmap != null ==> d == Some(bitmap.State()) && (bitmap == opts.inBitmap || (fresh(bitmap) && !bitmap.recycled)))
        && (bitmap != null && resp.produced.IntoInBitmap? ==> bitmap == opts.inBitmap)
        && (bitmap != null && resp.produced.NewBitmap? ==> fresh(bitmap))
    {
      bitmap := decoder.DecodeRegion(tempRect, opts);
      if bitmap == null || bitmap.width == 0 || bitmap.height == 0 {
        return null;
      }
      if sdkAtLeastO && opts.outConfig != Some(Argb8888) {
        return null;
      }
    }

    /**
     * The tail of `decodeRegion`, once a usable bitmap has been decoded into
     * `decoded`: cut the over-fetched sub-bitmap if the caller's buffer does
     * not match the stored-image rectangle, then rotate.
     */
    method Reshape(decoded: Bitmap, inBitmap: Bitmap?, sampleSize: Int32,
                   unsampledInBitmapWidth: Int32, unsampledInBitmapHeight: Int32,
                   ghost buffer: Option<BitmapState>, ghost decodedOnly: seq<Bitmap>, ghost log: Allocations)
      returns (result: Returned, ghost chain: seq<Bitmap>)
      requires sampleSize >= 1
      requires buffer == StateOf(inBitmap)
      requires inBitmap != null ==>
        unsampledInBitmapWidth == Mul(inBitmap.width, sampleSize)
        && unsampledInBitmapHeight == Mul(inBitmap.height, sampleSize)
      requires decodedOnly == [decoded] && RecycledUnlessHeld(decodedOnly, inBitmap)
      modifies (if decoded == inBitmap then {} else {decoded}), log`made
      ensures Summary(result) == Reshaped(old(decoded.State()), tempRect, buffer, sampleSize, rotateMatrix)
      ensures HeldAs(chain, Held(old(decoded.State()), tempRect, buffer, sampleSize, rotateMatrix))
      ensures chain[0] == decoded
      ensures forall b <- chain :: b == decoded || fresh(b)
      ensures result.ReturnedBitmap? ==> result.bitmap == chain[|chain| - 1]
      ensures RecycledUnlessHeld(chain, inBitmap)
      ensures log.made == old(log.made) + Replacements(chain)
    {
      ghost var d := decoded.State();
      var bitmap;
      ghost var cropChain;
      bitmap, cropChain := CropStep(decoded, inBitmap, sampleSize, unsampledInBitmapWidth, unsampledInBitmapHeight,
                                buffer, decodedOnly, log);
      chain := cropChain;
      if bitmap == null {
        HeldSplits(d, tempRect, buffer, sampleSize, rotateMatrix);
        return Threw, chain;
      }
      result, chain := RotateStep(bitmap, inBitmap, cropChain, log, old(log.made), d, buffer, sampleSize);
    }

    /**
     * The crop step of `decodeRegion` (a null `bitmap` stands for the exception
     * `createBitmap` throws): the held bitmaps are the decoded one and, when a
     * crop is made, the sub-bitmap.
     */
    method CropStep(decoded: Bitmap, inBitmap: Bitmap?, sampleSize: Int32,
                unsampledInBitmapWidth: Int32, unsampledInBitmapHeight: Int32,
                ghost buffer: Option<BitmapState>, ghost decodedOnly: seq<Bitmap>, ghost log: Allocations)
      returns (bitmap: Bitmap?, ghost chain: seq<Bitmap>)
      requires sampleSize >= 1
      requires buffer == StateOf(inBitmap)
      requires inBitmap != null ==>
        unsampledInBitmapWidth == Mul(inBitmap.width, sampleSize)
        && unsampledInBitmapHeight == Mul(inBitmap.height, sampleSize)
      requires decodedOnly == [decoded] && RecycledUnlessHeld(decodedOnly, inBitmap)
      modifies (if decoded == inBitmap then {} else {decoded}), log`made
      ensures var c := AfterCrop(old(decoded.State()), tempRect, buffer, sampleSize);
        && (bitmap == null <==> c.None?)
        && (bitmap != null ==> bitmap.State() == c.value)
      ensures HeldAs(chain, Held(old(decoded.State()), tempRect, buffer, sampleSize, None))
      ensures chain[0] == decoded
      ensures bitmap != null ==> bitmap == chain[|chain| - 1] && (bitmap == decoded || fresh(bitmap))
      ensures forall b <- chain :: b == decoded || fresh(b)
      ensures RecycledUnlessHeld(chain, inBitmap)
      ensures log.made == old(log.made) + Replacements(chain)
    {
      chain := decodedOnly;
      bitmap := decoded;
      if inBitmap != null
         && (tempRect.Width() != unsampledInBitmapWidth || tempRect.Height() != unsampledInBitmapHeight)
      {
        var subBitmap := Supersede(bitmap, inBitmap, Div(tempRect.Width(), sampleSize), Div(tempRect.Height(), sampleSize), None, chain, log);
        bitmap := subBitmap;
        if subBitmap != null {
          ReplacementsExtend(chain, subBitmap);
          chain := chain + [subBitmap];
        }
      }
    }

    /**
     * The rotation step of `decodeRegion` on the bitmap held last, the crop
     * of a decoded bitmap in state `d`: with a matrix, `createBitmap` through
     * it adds one held bitmap, or throws. `made` is the allocation record
     * before the crop step.
     */
    method RotateStep(bitmap: Bitmap, inBitmap: Bitmap?, ghost held: seq<Bitmap>, ghost log: Allocations,
                      ghost made: seq<Bitmap>, ghost d: BitmapState, ghost buffer: Option<BitmapState>,
                      ghost sampleSize: Int32)
      returns (result: Returned, ghost chain: seq<Bitmap>)
      requires sampleSize >= 1 && AfterCrop(d, tempRect, buffer, sampleSize) == Some(bitmap.State())
      requires |held| > 0 && held[|held| - 1] == bitmap && RecycledUnlessHeld(held, inBitmap)
      requires HeldAs(held, Held(d, tempRect, buffer, sampleSize, None))
      requires log.made == made + Replacements(held)
      modifies (if bitmap == inBitmap then {} else {bitmap}), log`made
      ensures Summary(result) == Reshaped(d, tempRect, buffer, sampleSize, rotateMatrix)
      ensures HeldAs(chain, Held(d, tempRect, buffer, sampleSize, rotateMatrix))
      ensures chain[0] == held[0]
      ensures forall b <- chain :: b in held || fresh(b)
      ensures result.ReturnedBitmap? ==> result.bitmap == chain[|chain| - 1]
      ensures RecycledUnlessHeld(chain, inBitmap)
      ensures log.made == made + Replacements(chain)
    {
      HeldSplits(d, tempRect, buffer, sampleSize, rotateMatrix);
      chain := held;
      if rotateMatrix.None? {
        return ReturnedBitmap(bitmap), chain;
      }
      var rotatedBitmap := Supersede(bitmap, inBitmap, bitmap.width, bitmap.height, rotateMatrix, chain, log);
      if rotatedBitmap == null {
        return Threw, chain;
      }
      ReplacementsExtend(chain, rotatedBitmap);
      HeldAsExtend(chain, Held(d, tempRect, buffer, sampleSize, None), rotatedBitmap,
                   Held(d, tempRect, buffer, sampleSize, rotateMatrix)[|chain|]);
      chain := chain + [rotatedBitmap];
      return ReturnedBitmap(rotatedBitmap), chain;
    }

    /** `destroy`: recycles the decoder, drops it, and closes the stream. */
    method Destroy()
      requires Valid() && decoder != null
      modifies this`decoder, decoder`recycled, inputStream`closed
      ensures Valid()
      ensures decoder == null && old(decoder).recycled && inputStream.closed
    {
      decoder.Recycle();
      decoder := null;
      inputStream.Close();
    }
  }
}
