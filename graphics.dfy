/**
 * The parts of `android.graphics` the loader relies on: bitmaps with a
 * recycled flag, decode options, rotation matrices and `Bitmap.createBitmap`.
 * Pixel content is not modelled; a bitmap is its size, its mutability and
 * whether it has been recycled.
 */
module Graphics {
  import opened JavaInt
  import opened Wrappers

  /** `Bitmap.Config`. */
  datatype Config = Alpha8 | Rgb565 | Argb4444 | Argb8888 | RgbaF16 | Hardware

  datatype Size = Size(width: Dim, height: Dim)

  /** A `Matrix` built as the identity followed by `postRotate(degrees)`. */
  datatype Matrix = Rotate(degrees: Int32) {
    predicate IsIdentity() { degrees % 360 == 0 }

    /** A quarter or three-quarter turn, which exchanges width and height. */
    predicate Transposes() { degrees % 180 == 90 }
  }

  /** Size of a `size` bitmap drawn through the optional matrix. */
  function MappedSize(size: Size, m: Option<Matrix>): (r: Size)
    ensures m.Some? && m.value.Transposes() ==> r.width == size.height && r.height == size.width
    ensures m.None? || !m.value.Transposes() ==> r == size
  {
    if m.Some? && m.value.Transposes() then Size(size.height, size.width) else size
  }

  /** What can be observed of a bitmap. */
  datatype BitmapState = BitmapState(size: Size, mutable: bool, recycled: bool)

  /**
   * `createBitmap(src, 0, 0, width, height[, m, filter])` throws
   * IllegalArgumentException for a non-positive size, a region reaching past
   * the source, or a recycled source.
   */
  predicate Rejects(src: BitmapState, width: Int32, height: Int32) {
    width <= 0 || height <= 0 || width > src.size.width || height > src.size.height || src.recycled
  }

  /** `createBitmap` returns its immutable source itself when asked for all of it, untransformed. */
  predicate SharesSource(src: BitmapState, width: Int32, height: Int32, m: Option<Matrix>) {
    !src.mutable && width == src.size.width && height == src.size.height
    && (m.None? || m.value.IsIdentity())
  }

  /**
   * The bitmap `createBitmap` hands back, or None where it throws. A copy is a
   * new mutable bitmap (a hardware source, whose copy is immutable, never
   * reaches the loader's calls).
   */
  function Created(src: BitmapState, width: Int32, height: Int32, m: Option<Matrix>): (r: Option<BitmapState>)
    ensures r.None? <==> Rejects(src, width, height)
    ensures r.Some? ==> 0 < width && 0 < height
    ensures r.Some? ==> !r.value.recycled && r.value.size == MappedSize(Size(width, height), m)
    ensures r.Some? ==> (r.value.mutable || r.value == src)
  {
    if Rejects(src, width, height) then None
    else if SharesSource(src, width, height, m) then Some(src)
    else Some(BitmapState(MappedSize(Size(width, height), m), true, false))
  }

  /** `android.graphics.Bitmap`. */
  class Bitmap {
    const width: Dim
    const height: Dim
    const mutable: bool
    var recycled: bool

    constructor (width: Dim, height: Dim, mutable: bool)
      ensures this.width == width && this.height == height && this.mutable == mutable
      ensures !recycled
    {
      this.width := width;
      this.height := height;
      this.mutable := mutable;
      recycled := false;
    }

    function State(): BitmapState
      reads this
    {
      BitmapState(Size(width, height), mutable, recycled)
    }

    /** `recycle()`: frees the pixels; the object stays, marked recycled. */
    method Recycle()
      modifies this
      ensures recycled
    {
      recycled := true;
    }
  }

  /** A record, for proofs only, of the bitmaps `createBitmap` has allocated, in order. */
  class Allocations {
    ghost var made: seq<Bitmap>

    constructor ()
      ensures made == []
    {
      made := [];
    }
  }

  /**
   * `Bitmap.createBitmap(source, 0, 0, width, height)` (with `m` None) and
   * `Bitmap.createBitmap(source, 0, 0, width, height, m, true)`. A null
   * result stands for the IllegalArgumentException it throws. Every new bitmap
   * is appended to `log`.
   */
  method CreateBitmap(source: Bitmap, width: Int32, height: Int32, m: Option<Matrix>, ghost log: Allocations)
    returns (r: Bitmap?)
    modifies log`made
    ensures r == null <==> Rejects(source.State(), width, height)
    ensures r != null ==> r.State() == Created(source.State(), width, height, m).value
    ensures r != null ==> (r == source <==> SharesSource(source.State(), width, height, m))
    ensures r != null && r != source ==> fresh(r)
    ensures log.made == old(log.made) + (if r != null && r != source then [r] else [])
  {
    var src := source.State();
    if Rejects(src, width, height) {
      r := null;
    } else if SharesSource(src, width, height, m) {
      r := source;
    } else {
      var size := MappedSize(Size(width, height), m);
      r := new Bitmap(size.width, size.height, true);
      log.made := log.made + [r];
    }
  }

  /** `BitmapFactory.Options`, with the fields the loader reads or writes. */
  class Options {
    var inPreferredConfig: Config
    var inSampleSize: Int32
    var inBitmap: Bitmap?
    var outConfig: Option<Config>

    /** `new Options()`: ARGB_8888 preferred, sample size 0, no reusable bitmap. */
    constructor ()
      ensures inPreferredConfig == Argb8888 && inSampleSize == 0 && inBitmap == null && outConfig == None
    {
      inPreferredConfig := Argb8888;
      inSampleSize := 0;
      inBitmap := null;
      outConfig := None;
    }
  }
}
