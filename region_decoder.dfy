/**
 * The platform's `BitmapRegionDecoder` and the stream it reads, kept opaque:
 * what the decoder makes of a request is a fixed function of the request,
 * supplied with the encoded image.
 */
module RegionDecoding {
  import opened JavaInt
  import opened Wrappers
  import opened Geometry
  import opened Graphics

  /** What the decoder is asked: the stored-image rectangle and the option fields it reads. */
  datatype Request = Request(rect: Rect, sampleSize: Int32, preferred: Config, reuse: Option<Size>)

  /** The bitmap a decode call hands back. */
  datatype Produced =
    | NoBitmap                              // null
    | IntoInBitmap                          // the decode went into `inBitmap`, which is returned
    | NewBitmap(width: Dim, height: Dim)    // a newly allocated bitmap

  /** The returned bitmap and the config the decoder reports in `outConfig`. */
  datatype Response = Response(produced: Produced, outConfig: Config)

  /** What `BitmapRegionDecoder.newInstance` sees in a stream it can open. */
  datatype Image = Image(width: Int32, height: Int32, engine: Request -> Response)

  /** An `InputStream` of encoded image bytes. */
  class InputStream {
    /** None where the platform cannot open a region decoder on the bytes. */
    const image: Option<Image>
    var closed: bool

    constructor (image: Option<Image>)
      ensures this.image == image && !closed
    {
      this.image := image;
      closed := false;
    }

    method Close()
      modifies this`closed
      ensures closed
    {
      closed := true;
    }
  }

  /** The request a decode call makes from its rectangle and options. */
  function RequestOf(rect: Rect, sampleSize: Int32, preferred: Config, reuse: Bitmap?): Request
    reads reuse
  {
    Request(rect, sampleSize, preferred, if reuse == null then None else Some(Size(reuse.width, reuse.height)))
  }

  /** The request `checkConfig` makes: one pixel, fresh options asking for ARGB_8888. */
  function ProbeRequest(): (req: Request)
    ensures req.rect.Width() == 1 && req.rect.Height() == 1 && req.preferred == Argb8888 && req.reuse.None?
  {
    Request(Rect(0, 0, 1, 1), 0, Argb8888, None)
  }

  /** `android.graphics.BitmapRegionDecoder`. */
  class RegionDecoder {
    const width: Int32
    const height: Int32
    const engine: Request -> Response
    var recycled: bool
    /** Number of decode calls made so far. */
    ghost var calls: nat
    /** The bitmap the last decode call returned. */
    ghost var lastReturned: Bitmap?

    /** `BitmapRegionDecoder.newInstance(in, false)` on a stream it can open. */
    constructor (image: Image)
      ensures width == image.width && height == image.height && engine == image.engine
      ensures !recycled && calls == 0 && lastReturned == null
    {
      width := image.width;
      height := image.height;
      engine := image.engine;
      recycled := false;
      calls := 0;
      lastReturned := null;
    }

    /**
     * `decodeRegion(rect, options)`: sets `outConfig` and returns null, the
     * caller's `inBitmap` or a new immutable bitmap, as the engine answers.
     */
    method DecodeRegion(rect: Rect, options: Options) returns (b: Bitmap?)
      requires !recycled
      modifies this`calls, this`lastReturned, options`outConfig
      ensures calls == old(calls) + 1 && lastReturned == b
      ensures var resp := engine(RequestOf(rect, options.inSampleSize, options.inPreferredConfig, options.inBitmap));
        && options.outConfig == Some(resp.outConfig)
        && (resp.produced.NoBitmap? ==> b == null)
        && (resp.produced.IntoInBitmap? ==> b == options.inBitmap)
        && (resp.produced.NewBitmap? ==>
              b != null && fresh(b) && !b.recycled && !b.mutable
              && b.width == resp.produced.width && b.height == resp.produced.height)
    {
      var resp := engine(RequestOf(rect, options.inSampleSize, options.inPreferredConfig, options.inBitmap));
      calls := calls + 1;
      options.outConfig := Some(resp.outConfig);
      match resp.produced {
        case NoBitmap => b := null;
        case IntoInBitmap => b := options.inBitmap;
        case NewBitmap(w, h) => b := new Bitmap(w, h, false);
      }
      lastReturned := b;
    }

    /** `recycle()`: releases the native decoder. */
    method Recycle()
      modifies this`recycled
      ensures recycled
    {
      recycled := true;
    }
  }
}
