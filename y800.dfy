/** The fixed-layout Y800 buffer: one luma byte per pixel, rows `stride`
    bytes apart. */
module Y800 {
  import opened Pixels

  /** Byte offset of pixel (x, y). */
  function PixelStart(x: nat, y: nat, stride: nat): nat {
    x + y * stride
  }

  /** The colour a luma byte reads as: no chroma. */
  function FromLuma(b: Byte): (c: YCbCrColor)
    ensures c.y == b && c.cb == 0 && c.cr == 0
  {
    YCbCrColor(b, 0, 0)
  }

  /** The store `new_with_background` builds: `width` luma bytes per row,
      rows padded with zeros when the line width exceeds `width`. */
  function BackgroundBytes(color: YCbCrColor, width: nat, height: nat, lineWidth: nat): seq<Byte> {
    if lineWidth > width then Background([color.y], width, lineWidth - width, height)
    else Repeat([color.y], width * height)
  }

  /** After the store update `set_pixel` makes at (x, y), pixel (x, y) reads
      back with the written luma and zero chroma, and every other in-image
      pixel (x', y') reads as before, when the stride holds a row. */
  lemma SetThenGet(bytes: seq<Byte>, width: nat, stride: nat, x: nat, y: nat, x': nat, y': nat, color: YCbCrColor)
    requires x < width && x' < width && stride >= width
    requires PixelStart(x, y, stride) < |bytes| && PixelStart(x', y', stride) < |bytes|
    ensures var after := bytes[PixelStart(x, y, stride) := color.y];
      FromLuma(after[PixelStart(x, y, stride)]) == color.(cb := 0, cr := 0) &&
      ((x', y') != (x, y) ==> FromLuma(after[PixelStart(x', y', stride)]) == FromLuma(bytes[PixelStart(x', y', stride)]))
  {
    if (x', y') != (x, y) {
      PixelsDistinct(width, stride, x, y, x', y');
    }
  }

  /** Distinct pixels of a row-major store occupy distinct bytes when the
      stride holds a row. */
  lemma PixelsDistinct(width: nat, stride: nat, x: nat, y: nat, x': nat, y': nat)
    requires x < width && x' < width && stride >= width && (x, y) != (x', y')
    ensures PixelStart(x, y, stride) != PixelStart(x', y', stride)
  {
    assert width * 1 == width;
    CellsDisjoint(1, stride, width, x, y, x', y');
  }

  /** Every pixel of a background store reads back as the fill luma when the
      line width holds a whole row. */
  lemma BackgroundGet(color: YCbCrColor, width: nat, height: nat, lineWidth: nat, x: nat, y: nat)
    requires lineWidth >= width && x < width && y < height
    ensures var bytes := BackgroundBytes(color, width, height, lineWidth);
      |bytes| == lineWidth * height &&
      PixelStart(x, y, lineWidth) < |bytes| && FromLuma(bytes[PixelStart(x, y, lineWidth)]) == color.(cb := 0, cr := 0)
  {
    var rep: seq<Byte> := [color.y];
    assert width == |rep| * width;
    if lineWidth <= width {
      PackedBackground(rep, width, height);
    }
    BackgroundUnit(rep, width, lineWidth, height, x, y, 0);
    assert x * |rep| == x;
  }

  class Y800PixelBuffer {
    const width: nat
    const height: nat
    const stride: nat
    const data: array<Byte>

    /** Byte offset of pixel (x, y). */
    function Start(x: nat, y: nat): nat {
      PixelStart(x, y, stride)
    }

    /** Whether the byte of pixel (x, y) lies inside the store. */
    predicate Addressable(x: nat, y: nat) {
      Start(x, y) < data.Length
    }

    /** The colour pixel (x, y) currently reads as. */
    function StoredColor(x: nat, y: nat): YCbCrColor
      requires Addressable(x, y)
      reads data
    {
      FromLuma(data[Start(x, y)])
    }

    /** `new`: a zero-filled store of `stride * height` bytes. */
    constructor New(width: nat, height: nat, stride: Option<nat>)
      ensures this.width == width && this.height == height && this.stride == stride.GetOr(width)
      ensures fresh(data) && data[..] == Zeros(this.stride * height)
    {
      var lineWidth := stride.GetOr(width);
      this.width := width;
      this.height := height;
      this.stride := lineWidth;
      data := new Byte[lineWidth * height](_ => 0);
    }

    /** Takes over `bytes` as the store. */
    constructor Adopt(width: nat, height: nat, stride: nat, bytes: seq<Byte>)
      ensures this.width == width && this.height == height && this.stride == stride
      ensures fresh(data) && data[..] == bytes
    {
      this.width := width;
      this.height := height;
      this.stride := stride;
      data := new Byte[|bytes|](i requires 0 <= i < |bytes| => bytes[i]);
    }

    /** `new_with_data`: keeps `bytes` unchanged, or fails when they are
        fewer than `stride * height`. */
    static method NewWithData(width: nat, height: nat, stride: Option<nat>, bytes: seq<Byte>)
      returns (r: Result<Y800PixelBuffer>)
      ensures r.Err? <==> |bytes| < stride.GetOr(width) * height
      ensures r.Err? ==> r.error == BufferTooSmall
      ensures r.Ok? ==>
        var b := r.value;
        fresh(b) && fresh(b.data) && b.width == width && b.height == height &&
        b.stride == stride.GetOr(width) && b.data[..] == bytes
    {
      if |bytes| < stride.GetOr(width) * height {
        return Err(BufferTooSmall);
      }
      var b := new Y800PixelBuffer.Adopt(width, height, stride.GetOr(width), bytes);
      return Ok(b);
    }

    /** `new_with_background`: every pixel holds the luma of `color`. */
    constructor WithBackground(width: nat, height: nat, stride: Option<nat>, color: YCbCrColor)
      ensures this.width == width && this.height == height && this.stride == stride.GetOr(width)
      ensures fresh(data) && data[..] == BackgroundBytes(color, width, height, this.stride)
    {
      var lineWidth := stride.GetOr(width);
      var bytes: seq<Byte>;
      if lineWidth > width {
        var line := Repeat([color.y], width) + Zeros(lineWidth - width);
        bytes := Repeat(line, height);
      } else {
        bytes := Repeat([color.y], width * height);
      }
      this.width := width;
      this.height := height;
      this.stride := lineWidth;
      data := new Byte[|bytes|](i requires 0 <= i < |bytes| => bytes[i]);
    }

    /** `set_pixel`: fails on (x, y) outside the width-by-width square;
        otherwise stores the luma of `color`, dropping its chroma. */
    method SetPixel(x: nat, y: nat, color: YCbCrColor) returns (r: Result<()>)
      requires !OutOfBounds(x, y, width) ==> Addressable(x, y)
      modifies data
      ensures r.Err? <==> OutOfBounds(x, y, width)
      ensures r.Err? ==> r.error == RequestOutOfBounds && data[..] == old(data[..])
      ensures r.Ok? ==> data[..] == old(data[..])[Start(x, y) := color.y]
    {
      if x >= width || y >= width {
        return Err(RequestOutOfBounds);
      }
      var start := x + y * stride;
      data[start] := color.y;
      return Ok(());
    }

    /** `get_pixel`: fails on (x, y) outside the width-by-width square;
        otherwise returns the stored luma with zero chroma. */
    method GetPixel(x: nat, y: nat) returns (r: Result<YCbCrColor>)
      requires !OutOfBounds(x, y, width) ==> Addressable(x, y)
      ensures r.Err? <==> OutOfBounds(x, y, width)
      ensures r.Err? ==> r.error == RequestOutOfBounds
      ensures r.Ok? ==> r.value == StoredColor(x, y)
    {
      if x >= width || y >= width {
        return Err(RequestOutOfBounds);
      }
      var start := x + y * stride;
      return Ok(YCbCrColor(data[start], 0, 0));
    }
  }
}
