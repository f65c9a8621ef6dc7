# BitmapRegionLoader, modelled in Dafny

Muzei's `BitmapRegionLoader` wraps Android's `BitmapRegionDecoder`. It shows a
stored image rotated by a fixed angle (0, 90, 180 or 270 degrees). A caller asks
for a rectangle of the rotated, *logical* image. The loader then does four things:

- maps the rectangle to the *stored* (physical) image;
- decodes that rectangle;
- when the caller's reusable bitmap (`inBitmap`) does not match the region, cuts
  the over-fetched sub-bitmap;
- rotates the result into the logical orientation.

On the path that returns a bitmap, every intermediate bitmap is recycled, except
the caller's buffer and any bitmap that `createBitmap` handed back unchanged.

The project has these modules:

- `JavaInt` models Java's 32-bit `int`:
  - `Sub` and `Mul` wrap around;
  - `Div` truncates toward zero;
  - lemmas prove the wrap-around laws the rectangle mapping relies on.
- `Geometry` holds `Rect` with `android.graphics.Rect` semantics, the logical→stored mapping and
  the logical dimensions. Lemmas prove four things about the mapping:
  - the shape follows the rotation;
  - the mapping inverts;
  - bounds and emptiness are preserved;
  - the full frame maps to the full frame.
- `Graphics` models bitmaps, `Bitmap.createBitmap` and `BitmapFactory.Options`:
  - a bitmap is a class with a `recycled` flag;
  - `createBitmap` follows the platform's rules: it throws or returns a bitmap, and can return its own source;
  - `Options` is a class whose fields the loader writes.
- `RegionDecoding` is the platform decoder, kept opaque. An input stream carries the
  decoder's fixed answer (the `engine` function) for every request. A ghost counter records decoder calls.
- `Pipeline` is a pure reference definition (`Expected`) of what `decodeRegion` produces: null, an
  exception, or a bitmap of a given size. Lemmas state the properties the loader promises its callers.
- `Loader` is the `BitmapRegionLoader` class itself:
  - its fields and lifecycle (`NewInstance`, the constructor, `CheckConfig`, `Destroy`);
  - `DecodeRegion`, proved against `Pipeline.Expected`;
  - recycling, proved over a ghost list of the bitmaps the method held. The list is pinned to
    `Pipeline.Held`: the decoded bitmap, then one bitmap per crop or rotation step taken. Each entry
    is also pinned to a real object. The first is the object the decoder last returned (a ghost
    field of the decoder). The later entries that are not reused are exactly the objects
    `createBitmap` allocated during the call, in order (a ghost allocation record).

Two platform facts are parameters: whether the device runs Android O or later (`sdkAtLeastO`), and
the decoder's answers. All source paths below are under
`main/src/main/java/com/google/android/apps/muzei/render/`.

## Model

| member | source | states |
|---|---|---|
| JavaInt.Wrap | main/src/main/java/com/google/android/apps/muzei/render/BitmapRegionLoader.java:116-130 | a Java `int` result of an in-range value is that value |
| JavaInt.WrapIsCongruent | main/src/main/java/com/google/android/apps/muzei/render/BitmapRegionLoader.java:116-130 | every wrapped Java `int` result is congruent to the exact value modulo 2^32 |
| JavaInt.WrapUnique | main/src/main/java/com/google/android/apps/muzei/render/BitmapRegionLoader.java:116-130 | the wrapped result is the only `int` congruent to the exact value, so Java arithmetic is arithmetic modulo 2^32 |
| JavaInt.Sub | main/src/main/java/com/google/android/apps/muzei/render/BitmapRegionLoader.java:116-130 | Java `int` subtraction equals the exact difference when that difference fits in an `int` |
| JavaInt.Mul | main/src/main/java/com/google/android/apps/muzei/render/BitmapRegionLoader.java:109-110 | `getWidth() * sampleSize` equals the exact product when that product fits in an `int` |
| JavaInt.Div | main/src/main/java/com/google/android/apps/muzei/render/BitmapRegionLoader.java:156-157 | Java `/` with a positive divisor: the floor quotient for a non-negative dividend, truncation toward zero for a negative one |
| JavaInt.Max | main/src/main/java/com/google/android/apps/muzei/render/BitmapRegionLoader.java:107 | `Math.max` is at least both arguments and is one of them |
| JavaInt.SubOfDifferences | main/src/main/java/com/google/android/apps/muzei/render/BitmapRegionLoader.java:116-130 | `(h - a) - (h - b) == b - a` in Java `int` arithmetic for all values, including on overflow |
| JavaInt.SubSubCancels | main/src/main/java/com/google/android/apps/muzei/render/BitmapRegionLoader.java:116-130 | `h - (h - x) == x` in Java `int` arithmetic for all values |
| Geometry.LogicalWidth | main/src/main/java/com/google/android/apps/muzei/render/BitmapRegionLoader.java:179-181 | the logical width is the stored height exactly for 90 and 270, and the stored width otherwise |
| Geometry.LogicalHeight | main/src/main/java/com/google/android/apps/muzei/render/BitmapRegionLoader.java:183-185 | the logical height is the stored width exactly for 90 and 270, and the stored height otherwise |
| Geometry.ToPhysical | main/src/main/java/com/google/android/apps/muzei/render/BitmapRegionLoader.java:114-135 | any rotation other than 90, 180 and 270 (0 among them) leaves the requested rectangle unchanged |
| Geometry.Inverse | main/src/main/java/com/google/android/apps/muzei/render/BitmapRegionLoader.java:114-135 | the undoing rotation is again one of 0/90/180/270 and adds up with the rotation to a whole turn |
| Geometry.ShapeFollowsRotation | main/src/main/java/com/google/android/apps/muzei/render/BitmapRegionLoader.java:115-131 | for every `int` rectangle, the stored rectangle's width and height are the logical height and width for 90 and 270, and the logical width and height otherwise |
| Geometry.RoundTrip | main/src/main/java/com/google/android/apps/muzei/render/BitmapRegionLoader.java:115-135 | mapping with the inverse rotation on an image of the logical dimensions recovers the requested rectangle exactly, for every `int` rectangle |
| Geometry.BoundsPreserved | main/src/main/java/com/google/android/apps/muzei/render/BitmapRegionLoader.java:115-131 | a rectangle within `[0,getWidth()]x[0,getHeight()]` maps to one within `[0,mOriginalWidth]x[0,mOriginalHeight]`, and is empty exactly when the request is |
| Geometry.FullFrameMapsToStoredFrame | main/src/main/java/com/google/android/apps/muzei/render/BitmapRegionLoader.java:179-185 | the full logical frame `(0,0,getWidth(),getHeight())` maps onto the full stored frame, for every rotation |
| Graphics.MappedSize | main/src/main/java/com/google/android/apps/muzei/render/BitmapRegionLoader.java:166-169 | a quarter-turn matrix exchanges width and height; no matrix, or one that does not transpose, keeps the size |
| Graphics.Created | main/src/main/java/com/google/android/apps/muzei/render/BitmapRegionLoader.java:154-157 | `createBitmap` throws exactly for a non-positive size, a region past the source or a recycled source; otherwise it yields a live bitmap of the requested size, mapped through the matrix, which is the source itself or a mutable copy |
| Graphics.CreateBitmap | main/src/main/java/com/google/android/apps/muzei/render/BitmapRegionLoader.java:154-169 | the returned object is the source exactly when the source is immutable, all of it is asked for and the matrix is the identity; otherwise it is a new bitmap whose state is `Created`, and it is appended to the allocation record, which records nothing else |
| RegionDecoding.ProbeRequest | main/src/main/java/com/google/android/apps/muzei/render/BitmapRegionLoader.java:88-91 | the probe asks for a 1x1 region in ARGB_8888, without a reusable bitmap |
| RegionDecoding.RegionDecoder.DecodeRegion | main/src/main/java/com/google/android/apps/muzei/render/BitmapRegionLoader.java:140 | one decoder call: `outConfig` is set to the engine's answer, and the result is null, the caller's `inBitmap` or a new live bitmap of the answered size; the decoder remembers the object it returned |
| Pipeline.SampleSize | main/src/main/java/com/google/android/apps/muzei/render/BitmapRegionLoader.java:107 | the effective sample size is at least 1: the caller's value if positive, otherwise 1 |
| Pipeline.RotateMatrix | main/src/main/java/com/google/android/apps/muzei/render/BitmapRegionLoader.java:54-58 | a rotation matrix exists exactly when the rotation is not 0, and it rotates by that rotation |
| Pipeline.Decoded | main/src/main/java/com/google/android/apps/muzei/render/BitmapRegionLoader.java:140 | the decoded bitmap is none, the caller's buffer, or a new live bitmap of the decoder's size |
| Pipeline.AfterCrop | main/src/main/java/com/google/android/apps/muzei/render/BitmapRegionLoader.java:150-162 | without a buffer, or with one whose size times the sample size matches the stored rectangle, the bitmap is kept; a crop yields `rect.width()/sampleSize x rect.height()/sampleSize` |
| Pipeline.AfterRotate | main/src/main/java/com/google/android/apps/muzei/render/BitmapRegionLoader.java:164-174 | without a matrix the bitmap is kept; with one, the result has the mapped size |
| Pipeline.Reshaped | main/src/main/java/com/google/android/apps/muzei/render/BitmapRegionLoader.java:150-176 | the crop and rotate steps end in a bitmap or an exception, never in null |
| Pipeline.NullExactly | main/src/main/java/com/google/android/apps/muzei/render/BitmapRegionLoader.java:137-148 | `decodeRegion` returns null exactly for an empty stored rectangle, a null or zero-sized decode, or (from Android O) a config other than ARGB_8888 |
| Pipeline.PlainDecodeKeepsSize | main/src/main/java/com/google/android/apps/muzei/render/BitmapRegionLoader.java:140-176 | with no buffer and no rotation, a bitmap result is a new bitmap from the decoder, at the decoder's size |
| Pipeline.ThrowsOnlyWhenReshaping | main/src/main/java/com/google/android/apps/muzei/render/BitmapRegionLoader.java:150-174 | an exception happens only if a crop was needed or a rotation matrix exists |
| Pipeline.Held | main/src/main/java/com/google/android/apps/muzei/render/BitmapRegionLoader.java:150-176 | the bitmaps held in the local `bitmap` start with the decoded one, not shared, and are at most three: decoded, cropped, rotated |
| Pipeline.HeldFollowsOutcome | main/src/main/java/com/google/android/apps/muzei/render/BitmapRegionLoader.java:150-176 | each crop or rotation step taken adds one held bitmap; an exception is exactly a list cut short; a bitmap result has the size of the last bitmap held |
| Pipeline.FinalSizeIsLogicalRequest | main/src/main/java/com/google/android/apps/muzei/render/BitmapRegionLoader.java:114-174 | for rotations 0/90/180/270: once the bitmap before rotation has the sampled size of the stored rectangle, the result has the sampled size of the logical request, with width and height not exchanged |
| Loader.Supersede | main/src/main/java/com/google/android/apps/muzei/render/BitmapRegionLoader.java:154-173 | one `createBitmap` step: the held bitmap is recycled only if it is neither the caller's buffer nor its replacement, and nothing is recycled when `createBitmap` throws; a replacement that is a new object is the one allocation recorded |
| Loader.PrepareOptions | main/src/main/java/com/google/android/apps/muzei/render/BitmapRegionLoader.java:101-111 | null options become fresh ones; the preferred config is forced to ARGB_8888; the sample size is clamped; the unsampled buffer size is buffer size times sample size |
| Loader.BitmapRegionLoader.NewInstance | main/src/main/java/com/google/android/apps/muzei/render/BitmapRegionLoader.java:47-63 | a loader comes back exactly when the stream is non-null, a decoder opens, both dimensions are positive and the format probe passes; a returned loader has the rotation, and a matrix exactly when the rotation is not 0 |
| Loader.BitmapRegionLoader.NewUnrotatedInstance | main/src/main/java/com/google/android/apps/muzei/render/BitmapRegionLoader.java:43-45 | the same acceptance rule, with rotation 0 and no matrix |
| Loader.BitmapRegionLoader.constructor | main/src/main/java/com/google/android/apps/muzei/render/BitmapRegionLoader.java:65-75 | the loader is valid exactly when a decoder opens with positive dimensions and the probe passes; the dimensions are the decoder's |
| Loader.BitmapRegionLoader.CheckConfig | main/src/main/java/com/google/android/apps/muzei/render/BitmapRegionLoader.java:84-93 | before Android O it passes without calling the decoder; from O on it decodes the one-pixel probe once and passes exactly when ARGB_8888 is reported |
| Loader.BitmapRegionLoader.GetWidth | main/src/main/java/com/google/android/apps/muzei/render/BitmapRegionLoader.java:179-181 | the logical width of a loader is positive, and is the stored height exactly for 90 and 270 |
| Loader.BitmapRegionLoader.GetHeight | main/src/main/java/com/google/android/apps/muzei/render/BitmapRegionLoader.java:183-185 | the logical height of a loader is positive, and is the stored width exactly for 90 and 270 |
| Loader.BitmapRegionLoader.DecodeRegion | main/src/main/java/com/google/android/apps/muzei/render/BitmapRegionLoader.java:100-177 | the scratch rectangle is the mapped request; the config is forced and `outConfig` holds the decoder's answer; the decoder is not called for an empty rectangle; the outcome is `Pipeline.Expected`'s; the bitmaps held are the object the decoder returned (the caller's buffer or a new bitmap, as the decoder answered) and then one per crop or rotation step, as `Pipeline.Held` lists them, each new one being exactly the next object `createBitmap` allocated; the caller's buffer is never recycled; every other bitmap held is recycled exactly when replaced, so a returned non-buffer bitmap is live |
| Loader.BitmapRegionLoader.DecodeUsable | main/src/main/java/com/google/android/apps/muzei/render/BitmapRegionLoader.java:140-148 | exactly one decoder call; null exactly for a null or zero-sized decode or (from O) a non-ARGB_8888 config; otherwise the object the decoder returned: the caller's buffer or a new live bitmap |
| Loader.BitmapRegionLoader.DecodeThenReshape | main/src/main/java/com/google/android/apps/muzei/render/BitmapRegionLoader.java:140-176 | for a non-empty scratch rectangle: one decoder call, and the outcome, bitmaps held, allocations and recycling `DecodeRegion` promises, stated over the prepared options |
| Loader.BitmapRegionLoader.Reshape | main/src/main/java/com/google/android/apps/muzei/render/BitmapRegionLoader.java:150-176 | the crop-then-rotate tail ends as `Pipeline.Reshaped` says, holds the bitmaps `Pipeline.Held` lists starting with the decoded one, records exactly the new ones as allocated, and recycles only replaced bitmaps that are not the caller's buffer |
| Loader.BitmapRegionLoader.CropStep | main/src/main/java/com/google/android/apps/muzei/render/BitmapRegionLoader.java:150-162 | the bitmap after the crop step is `Pipeline.AfterCrop`'s, null standing for the exception; a new sub-bitmap is the one allocation recorded; the decoded bitmap is recycled only if replaced and not the caller's buffer |
| Loader.BitmapRegionLoader.RotateStep | main/src/main/java/com/google/android/apps/muzei/render/BitmapRegionLoader.java:164-176 | after a crop to `Pipeline.AfterCrop`'s state, the outcome is `Pipeline.Reshaped`'s; with a matrix one more bitmap is held, as `Pipeline.Held` lists it, and recorded as allocated when it is a new object; the bitmap before is recycled only if replaced and not the caller's buffer |
| Loader.BitmapRegionLoader.Destroy | main/src/main/java/com/google/android/apps/muzei/render/BitmapRegionLoader.java:187-194 | the decoder is recycled and dropped, and the stream is closed |

## Left out

- Pixel content is not modelled. Neither is the floating-point resampling of `Matrix.postRotate` and
  `createBitmap(..., m, true)`. A bitmap is only its size, its mutability and its recycled flag.
- Graphics.MappedSize: for rotations that are not a multiple of 90 degrees, the rotated bitmap keeps
  its source size. The platform computes a floating-point bounding box, which the model does not.
- Graphics.CreateBitmap: hardware bitmaps are not modelled. The platform's copy of a hardware
  source is immutable, but the loader never passes one: it asks for ARGB_8888 and rejects any other
  config from Android O on, and earlier versions have no hardware config. The decoder's new bitmaps
  are immutable; `inMutable` is never set by the loader and is not modelled.
- `BitmapRegionDecoder` internals are opaque: its answer to a request is a fixed function. The
  model does not cover the decoder throwing, nor the width and height a decode produces beyond
  what that function says.
- `InputStream` I/O and the `IOException` that `newInstance` may throw are not modelled. A stream
  either opens to an image or does not.
- Loader.BitmapRegionLoader.Destroy: the `IOException` that `close()` may throw, which the source
  swallows, is not modelled.
- `synchronized` and the `volatile` decoder field are about thread safety. The model is single-threaded.
- Some paths of `decodeRegion` drop a bitmap without recycling it, and the model does the same:
  - a zero-sized decoded bitmap (lines 141-143);
  - a decoded bitmap in a config other than ARGB_8888 (lines 144-147);
  - the bitmap held when `createBitmap` throws (lines 154 and 166).

  The ghost list of bitmaps held is empty when null is returned, and it ends at the bitmap held when
  the exception is thrown. No recycling is promised on those paths.
- `Build.VERSION.SDK_INT` becomes the boolean parameter `sdkAtLeastO`.
- Loader.BitmapRegionLoader.DecodeRegion requires a decoder that has not been destroyed. The source
  dereferences null after `destroy` and throws a NullPointerException; the model does not cover that.
- Loader.BitmapRegionLoader.Destroy requires a decoder that has not been destroyed. A second `destroy`
  in the source throws a NullPointerException.
- A crop yields `rect.width()/sampleSize x rect.height()/sampleSize`, as the code computes. It does
  not yield the buffer's own size. The model follows the code.
