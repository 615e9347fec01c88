/** The fixed-layout UYVY buffer: 4:2:2 subsampled YCbCr, where each
    four-byte macropixel U, Y0, V, Y1 holds two horizontally adjacent pixels
    that share their chroma. */
module UYVY {
  import opened Pixels

  /** `x * 2 + y * stride`, the offset both `set_pixel` and `get_pixel`
      start from. */
  function PixelStart(x: nat, y: nat, stride: nat): nat {
    x * 2 + y * stride
  }

  /** Offset of the macropixel holding pixel (x, y). */
  function MacroStart(x: nat, y: nat, stride: nat): (m: nat)
    ensures m == (x / 2) * 4 + y * stride
  {
    PixelStart(x, y, stride) - (x % 2) * 2
  }

  /** Offset of the U byte of pixel (x, y): `start` for even x, `start - 2`
      for odd x; the first byte of the macropixel either way. */
  function UAt(x: nat, y: nat, stride: nat): (i: nat)
    ensures i == MacroStart(x, y, stride)
  {
    if x % 2 == 0 then PixelStart(x, y, stride) else PixelStart(x, y, stride) - 2
  }

  /** Offset of the luma byte of pixel (x, y): `start + 1`, the second byte
      of the macropixel for even x and the fourth for odd x. */
  function YAt(x: nat, y: nat, stride: nat): (i: nat)
    ensures i == MacroStart(x, y, stride) + 1 + (x % 2) * 2
  {
    PixelStart(x, y, stride) + 1
  }

  /** Offset of the V byte of pixel (x, y): `start + 2` for even x, `start`
      for odd x; the third byte of the macropixel either way. */
  function VAt(x: nat, y: nat, stride: nat): (i: nat)
    ensures i == MacroStart(x, y, stride) + 2
  {
    if x % 2 == 0 then PixelStart(x, y, stride) + 2 else PixelStart(x, y, stride)
  }

  /** Whether the three bytes of pixel (x, y) lie in a store of `len` bytes:
      the last of them is `start + 2` for even x and `start + 1` for odd x. */
  predicate Fits(len: nat, x: nat, y: nat, stride: nat)
    ensures Fits(len, x, y, stride) <==> UAt(x, y, stride) < len && YAt(x, y, stride) < len && VAt(x, y, stride) < len
  {
    PixelStart(x, y, stride) + 2 - x % 2 < len
  }

  /** The colour pixel (x, y) reads as. */
  function ReadPixel(bytes: seq<Byte>, x: nat, y: nat, stride: nat): YCbCrColor
    requires Fits(|bytes|, x, y, stride)
  {
    YCbCrColor(bytes[YAt(x, y, stride)], bytes[UAt(x, y, stride)], bytes[VAt(x, y, stride)])
  }

  /** The store after writing `color` at (x, y): the luma byte replaced, the
      two chroma bytes averaged with the new chroma, every other byte kept. */
  function WritePixel(bytes: seq<Byte>, x: nat, y: nat, stride: nat, color: YCbCrColor): (r: seq<Byte>)
    requires Fits(|bytes|, x, y, stride)
    ensures |r| == |bytes|
    ensures forall k :: 0 <= k < |bytes| ==>
      r[k] == if k == YAt(x, y, stride) then color.y
              else if k == UAt(x, y, stride) then Average(bytes[k], color.cb)
              else if k == VAt(x, y, stride) then Average(bytes[k], color.cr)
              else bytes[k]
  {
    var u, l, v := UAt(x, y, stride), YAt(x, y, stride), VAt(x, y, stride);
    bytes[u := Average(bytes[u], color.cb)][v := Average(bytes[v], color.cr)][l := color.y]
  }

  /** A read after a write at the same pixel returns the written luma and the
      averages of the old chroma with the written chroma. */
  lemma SetThenGet(bytes: seq<Byte>, x: nat, y: nat, stride: nat, color: YCbCrColor)
    requires Fits(|bytes|, x, y, stride)
    ensures var before := ReadPixel(bytes, x, y, stride);
      ReadPixel(WritePixel(bytes, x, y, stride, color), x, y, stride) ==
        YCbCrColor(color.y, Average(before.cb, color.cb), Average(before.cr, color.cr))
  {
  }

  /** Pixels 2k and 2k + 1 of a row read the same chroma, and a write at
      either never touches the other's luma byte. */
  lemma SharedChroma(bytes: seq<Byte>, k: nat, y: nat, stride: nat, color: YCbCrColor, parity: nat)
    requires parity < 2
    requires Fits(|bytes|, 2 * k, y, stride) && Fits(|bytes|, 2 * k + 1, y, stride)
    ensures ReadPixel(bytes, 2 * k, y, stride).cb == ReadPixel(bytes, 2 * k + 1, y, stride).cb
    ensures ReadPixel(bytes, 2 * k, y, stride).cr == ReadPixel(bytes, 2 * k + 1, y, stride).cr
    ensures var partner := 2 * k + 1 - parity;
      WritePixel(bytes, 2 * k + parity, y, stride, color)[YAt(partner, y, stride)] == bytes[YAt(partner, y, stride)]
  {
    MulAddDivMod(k, 0, 2);
    MulAddDivMod(k, 1, 2);
    assert 2 * k == k * 2 + 0;
  }

  /** The macropixel `new_with_background` repeats: U, Y, V, Y. */
  function Representation(color: YCbCrColor): seq<Byte> {
    [color.cb, color.y, color.cr, color.y]
  }

  /** The store `new_with_background` builds: `width / 2` macropixels per
      row, rows padded with zeros when the line width exceeds `width * 2`. */
  function BackgroundBytes(color: YCbCrColor, width: nat, height: nat, lineWidth: nat): seq<Byte> {
    if lineWidth > width * 2 then Background(Representation(color), width / 2, lineWidth - width * 2, height)
    else Repeat(Representation(color), width / 2 * height)
  }

  /** With an even width and a line width holding a whole row, every pixel
      of a background store reads back as the fill colour. */
  lemma BackgroundGet(color: YCbCrColor, width: nat, height: nat, lineWidth: nat, x: nat, y: nat)
    requires width % 2 == 0 && lineWidth >= width * 2
    requires x < width && y < height
    ensures var bytes := BackgroundBytes(color, width, height, lineWidth);
      |bytes| == lineWidth * height &&
      Fits(|bytes|, x, y, lineWidth) && ReadPixel(bytes, x, y, lineWidth) == color
  {
    var rep := Representation(color);
    assert width * 2 == |rep| * (width / 2);
    if lineWidth <= width * 2 {
      PackedBackground(rep, width / 2, height);
    }
    BackgroundCell(rep, width / 2, lineWidth, height, x / 2, y);
    MacropixelRead(BackgroundBytes(color, width, height, lineWidth), color, x, y, lineWidth);
  }

  /** A pixel whose macropixel holds the representation of `color` reads as
      `color`. */
  lemma MacropixelRead(bytes: seq<Byte>, color: YCbCrColor, x: nat, y: nat, stride: nat)
    requires MacroStart(x, y, stride) + 4 <= |bytes|
    requires bytes[MacroStart(x, y, stride)..MacroStart(x, y, stride) + 4] == Representation(color)
    ensures Fits(|bytes|, x, y, stride) && ReadPixel(bytes, x, y, stride) == color
  {
    var m := MacroStart(x, y, stride);
    assert bytes[m] == color.cb && bytes[m + 1] == color.y && bytes[m + 2] == color.cr && bytes[m + 3] == color.y by {
      assert bytes[m..m + 4][0] == bytes[m];
      assert bytes[m..m + 4][1] == bytes[m + 1];
      assert bytes[m..m + 4][2] == bytes[m + 2];
      assert bytes[m..m + 4][3] == bytes[m + 3];
    }
  }

  /** With an odd width, the rows of a padded background store are two bytes
      shorter than the stride: `width / 2` macropixels fill `width * 2 - 2`
      bytes of each row. */
  lemma OddWidthShortRows(color: YCbCrColor, width: nat, height: nat, lineWidth: nat)
    requires width % 2 == 1 && lineWidth > width * 2 && height > 0
    ensures |BackgroundBytes(color, width, height, lineWidth)| == (lineWidth - 2) * height
  {
    assert |Representation(color)| * (width / 2) == width * 2 - 2;
  }

  class UYVYPixelBuffer {
    const width: nat
    const height: nat
    const stride: nat
    const data: array<Byte>

    /** Whether the bytes of pixel (x, y) lie inside the store. */
    predicate Addressable(x: nat, y: nat) {
      Fits(data.Length, x, y, stride)
    }

    /** The colour pixel (x, y) currently reads as. */
    function StoredColor(x: nat, y: nat): YCbCrColor
      requires Addressable(x, y)
      reads data
    {
      ReadPixel(data[..], x, y, stride)
    }

    /** `new`: a zero-filled store of `stride * height` bytes. */
    constructor New(width: nat, height: nat, stride: Option<nat>)
      ensures this.width == width && this.height == height && this.stride == stride.GetOr(width * 2)
      ensures fresh(data) && data[..] == Zeros(this.stride * height)
    {
      var lineWidth := stride.GetOr(width * 2);
      this.width := width;
      this.height := height;
      this.stride := lineWidth;
      data := new Byte[lineWidth * height](_ => 0);
    }

    /** Takes over `bytes` as the store. */
    constructor Adopt(width: nat, height: nat, stride: nat, bytes: seq<Byte>)
      ensures this.width == width && this.height == height && this.stride == stride
      ensures fresh(data) && data[..] == bytes
    {
      this.width := width;
      this.height := height;
      this.stride := stride;
      data := new Byte[|bytes|](i requires 0 <= i < |bytes| => bytes[i]);
    }

    /** `new_with_data`: fails when `bytes` are fewer than the packed size
        `stride * height` with default stride `width * 2`; keeps them
        otherwise, but records a default stride of `width * 3`. */
    static method NewWithData(width: nat, height: nat, stride: Option<nat>, bytes: seq<Byte>)
      returns (r: Result<UYVYPixelBuffer>)
      ensures r.Err? <==> |bytes| < stride.GetOr(width * 2) * height
      ensures r.Err? ==> r.error == BufferTooSmall
      ensures r.Ok? ==>
        var b := r.value;
        fresh(b) && fresh(b.data) && b.width == width && b.height == height &&
        b.stride == stride.GetOr(width * 3) && b.data[..] == bytes
    {
      if |bytes| < stride.GetOr(width * 2) * height {
        return Err(BufferTooSmall);
      }
      var b := new UYVYPixelBuffer.Adopt(width, height, stride.GetOr(width * 3), bytes);
      return Ok(b);
    }

    /** `new_with_background`: every macropixel holds the representation of
        `color`. */
    constructor WithBackground(width: nat, height: nat, stride: Option<nat>, color: YCbCrColor)
      ensures this.width == width && this.height == height && this.stride == stride.GetOr(width * 2)
      ensures fresh(data) && data[..] == BackgroundBytes(color, width, height, this.stride)
    {
      var representation: seq<Byte> := [color.cb, color.y, color.cr, color.y];
      var lineWidth := stride.GetOr(width * 2);
      var bytes: seq<Byte>;
      if lineWidth > width * 2 {
        var line := Repeat(representation, width / 2) + Zeros(lineWidth - width * 2);
        bytes := Repeat(line, height);
      } else {
        bytes := Repeat(representation, width / 2 * height);
      }
      this.width := width;
      this.height := height;
      this.stride := lineWidth;
      data := new Byte[|bytes|](i requires 0 <= i < |bytes| => bytes[i]);
    }

    /** `set_pixel`: fails on (x, y) outside the width-by-width square;
        otherwise replaces the luma byte and averages the shared chroma
        bytes of the macropixel with the new chroma. */
    method SetPixel(x: nat, y: nat, color: YCbCrColor) returns (r: Result<()>)
      requires !OutOfBounds(x, y, width) ==> Addressable(x, y)
      modifies data
      ensures r.Err? <==> OutOfBounds(x, y, width)
      ensures r.Err? ==> r.error == RequestOutOfBounds && data[..] == old(data[..])
      ensures r.Ok? ==> data[..] == WritePixel(old(data[..]), x, y, stride, color)
    {
      if x >= width || y >= width {
        return Err(RequestOutOfBounds);
      }
      var start := x * 2 + y * stride;
      var repr: seq<Byte> := [color.y, color.cb, color.cr];
      if x % 2 == 0 {
        data[start + 0] := Average(data[start + 0], repr[1]);
        data[start + 1] := repr[0];
        data[start + 2] := Average(data[start + 2], repr[2]);
      } else {
        data[start - 2] := Average(data[start - 2], repr[1]);
        data[start + 0] := Average(data[start + 0], repr[2]);
        data[start + 1] := repr[0];
      }
      assert data[..] == WritePixel(old(data[..]), x, y, stride, color);
      return Ok(());
    }

    /** `get_pixel`: fails on (x, y) outside the width-by-width square;
        otherwise reads luma and chroma at the even/odd offsets. */
    method GetPixel(x: nat, y: nat) returns (r: Result<YCbCrColor>)
      requires !OutOfBounds(x, y, width) ==> Addressable(x, y)
      ensures r.Err? <==> OutOfBounds(x, y, width)
      ensures r.Err? ==> r.error == RequestOutOfBounds
      ensures r.Ok? ==> r.value == StoredColor(x, y)
    {
      if x >= width || y >= width {
        return Err(RequestOutOfBounds);
      }
      var start := x * 2 + y * stride;
      if x % 2 == 0 {
        return Ok(YCbCrColor(data[start + 1], data[start + 0], data[start + 2]));
      } else {
        return Ok(YCbCrColor(data[start + 1], data[start - 2], data[start + 0]));
      }
    }
  }
}
