/** The fixed-layout BGRA buffer: four bytes b, g, r, a per pixel, rows
    `stride` bytes apart. */
module BGRA {
  import opened Pixels

  /** Byte offset of pixel (x, y). */
  function PixelStart(x: nat, y: nat, stride: nat): nat {
    x * 4 + y * stride
  }

  /** The colour four stored bytes b, g, r, a stand for. */
  function Unpack(s: seq<Byte>): RGBAColor
    requires |s| == 4
  {
    RGBAColor(s[2], s[1], s[0], s[3])
  }

  /** The four bytes a colour is stored as; unpacking them restores it. */
  function Layout(color: RGBAColor): (s: seq<Byte>)
    ensures |s| == 4 && Unpack(s) == color
  {
    var repr := color.Bytes();
    [repr[2], repr[1], repr[0], repr[3]]
  }

  /** The colour held by the four bytes from `start` on. */
  function ReadPixel(bytes: seq<Byte>, start: nat): RGBAColor
    requires start + 4 <= |bytes|
  {
    Unpack(bytes[start..start + 4])
  }

  /** The store `new_with_background` builds: one [b, g, r, a] per pixel,
      rows padded with zeros when the line width exceeds `width * 4`. */
  function BackgroundBytes(color: RGBAColor, width: nat, height: nat, lineWidth: nat): seq<Byte> {
    if lineWidth > width * 4 then Background(Layout(color), width, lineWidth - width * 4, height)
    else Repeat(Layout(color), width * height)
  }

  /** A pixel written at `start` reads back as the written colour. */
  lemma SetThenGet(bytes: seq<Byte>, start: nat, color: RGBAColor)
    requires start + 4 <= |bytes|
    ensures ReadPixel(Overwrite(bytes, start, Layout(color)), start) == color
  {
    OverwriteRead(bytes, start, Layout(color));
  }

  /** Writing one pixel leaves the colour of every other pixel as it was. */
  lemma SetLeavesOthers(bytes: seq<Byte>, width: nat, stride: nat, x: nat, y: nat, x': nat, y': nat, color: RGBAColor)
    requires x < width && x' < width && stride >= width * 4 && (x, y) != (x', y')
    requires PixelStart(x, y, stride) + 4 <= |bytes| && PixelStart(x', y', stride) + 4 <= |bytes|
    ensures ReadPixel(Overwrite(bytes, PixelStart(x, y, stride), Layout(color)), PixelStart(x', y', stride)) ==
            ReadPixel(bytes, PixelStart(x', y', stride))
  {
    CellsDisjoint(4, stride, width, x, y, x', y');
    var other := PixelStart(x', y', stride);
    OverwriteElsewhere(bytes, PixelStart(x, y, stride), Layout(color), other, other + 4);
  }

  /** Every pixel of a background store reads back as the fill colour when
      the line width holds a whole row. */
  lemma BackgroundGet(color: RGBAColor, width: nat, height: nat, lineWidth: nat, x: nat, y: nat)
    requires lineWidth >= width * 4 && x < width && y < height
    ensures var bytes := BackgroundBytes(color, width, height, lineWidth);
      |bytes| == lineWidth * height &&
      PixelStart(x, y, lineWidth) + 4 <= |bytes| && ReadPixel(bytes, PixelStart(x, y, lineWidth)) == color
  {
    var rep := Layout(color);
    assert width * 4 == |rep| * width;
    if lineWidth <= width * 4 {
      PackedBackground(rep, width, height);
    }
    BackgroundCell(rep, width, lineWidth, height, x, y);
  }

  /** In a padded background store, each row ends in zero bytes. */
  lemma BackgroundPaddingZero(color: RGBAColor, width: nat, height: nat, lineWidth: nat, y: nat, j: nat)
    requires y < height && width * 4 <= j < lineWidth
    ensures var bytes := BackgroundBytes(color, width, height, lineWidth);
      y * lineWidth + j < |bytes| && bytes[y * lineWidth + j] == 0
  {
    assert width * 4 == |Layout(color)| * width;
    BackgroundPadding(Layout(color), width, lineWidth, height, y, j);
  }

  class BGRAPixelBuffer {
    const width: nat
    const height: nat
    const stride: nat
    const data: array<Byte>

    /** Byte offset of pixel (x, y). */
    function Start(x: nat, y: nat): nat {
      PixelStart(x, y, stride)
    }

    /** Whether the bytes of pixel (x, y) lie inside the store. */
    predicate Addressable(x: nat, y: nat) {
      Start(x, y) + 4 <= data.Length
    }

    /** The colour pixel (x, y) currently reads as. */
    function StoredColor(x: nat, y: nat): RGBAColor
      requires Addressable(x, y)
      reads data
    {
      ReadPixel(data[..], Start(x, y))
    }

    /** `new`: a zero-filled store of `stride * height` bytes. */
    constructor New(width: nat, height: nat, stride: Option<nat>)
      ensures this.width == width && this.height == height && this.stride == stride.GetOr(width * 4)
      ensures fresh(data) && data[..] == Zeros(this.stride * height)
    {
      var lineWidth := stride.GetOr(width * 4);
      this.width := width;
      this.height := height;
      this.stride := lineWidth;
      data := new Byte[lineWidth * height](_ => 0);
    }

    /** Takes over `bytes` as the store. */
    constructor Adopt(width: nat, height: nat, stride: nat, bytes: seq<Byte>)
      ensures this.width == width && this.height == height && this.stride == stride
      ensures fresh(data) && data[..] == bytes
    {
      this.width := width;
      this.height := height;
      this.stride := stride;
      data := new Byte[|bytes|](i requires 0 <= i < |bytes| => bytes[i]);
    }

    /** `new_with_data`: keeps `bytes` unchanged, or fails when they are
        fewer than `stride * height`. */
    static method NewWithData(width: nat, height: nat, stride: Option<nat>, bytes: seq<Byte>)
      returns (r: Result<BGRAPixelBuffer>)
      ensures r.Err? <==> |bytes| < stride.GetOr(width * 4) * height
      ensures r.Err? ==> r.error == BufferTooSmall
      ensures r.Ok? ==>
        var b := r.value;
        fresh(b) && fresh(b.data) && b.width == width && b.height == height &&
        b.stride == stride.GetOr(width * 4) && b.data[..] == bytes
    {
      if |bytes| < stride.GetOr(width * 4) * height {
        return Err(BufferTooSmall);
      }
      var b := new BGRAPixelBuffer.Adopt(width, height, stride.GetOr(width * 4), bytes);
      return Ok(b);
    }

    /** `new_with_background`: every pixel holds `color`. */
    constructor WithBackground(width: nat, height: nat, stride: Option<nat>, color: RGBAColor)
      ensures this.width == width && this.height == height && this.stride == stride.GetOr(width * 4)
      ensures fresh(data) && data[..] == BackgroundBytes(color, width, height, this.stride)
    {
      var lineWidth := stride.GetOr(width * 4);
      var representation := color.Bytes();
      representation := [representation[2], representation[1], representation[0], representation[3]];
      var bytes: seq<Byte>;
      if lineWidth > width * 4 {
        var line := Repeat(representation, width) + Zeros(lineWidth - width * 4);
        bytes := Repeat(line, height);
      } else {
        bytes := Repeat(representation, width * height);
      }
      this.width := width;
      this.height := height;
      this.stride := lineWidth;
      data := new Byte[|bytes|](i requires 0 <= i < |bytes| => bytes[i]);
    }

    /** `set_pixel`: fails on (x, y) outside the width-by-width square;
        otherwise stores b, g, r, a over the pixel's four bytes. */
    method SetPixel(x: nat, y: nat, color: RGBAColor) returns (r: Result<()>)
      requires !OutOfBounds(x, y, width) ==> Addressable(x, y)
      modifies data
      ensures r.Err? <==> OutOfBounds(x, y, width)
      ensures r.Err? ==> r.error == RequestOutOfBounds && data[..] == old(data[..])
      ensures r.Ok? ==> data[..] == Overwrite(old(data[..]), Start(x, y), Layout(color))
    {
      if x >= width || y >= width {
        return Err(RequestOutOfBounds);
      }
      var start := x * 4 + y * stride;
      var repr := color.Bytes();
      data[start + 2] := repr[0];
      data[start + 1] := repr[1];
      data[start + 0] := repr[2];
      data[start + 3] := repr[3];
      assert data[..] == Overwrite(old(data[..]), start, Layout(color));
      return Ok(());
    }

    /** `get_pixel`: fails on (x, y) outside the width-by-width square;
        otherwise reassembles r, g, b, a from the pixel's four bytes. */
    method GetPixel(x: nat, y: nat) returns (r: Result<RGBAColor>)
      requires !OutOfBounds(x, y, width) ==> Addressable(x, y)
      ensures r.Err? <==> OutOfBounds(x, y, width)
      ensures r.Err? ==> r.error == RequestOutOfBounds
      ensures r.Ok? ==> r.value == StoredColor(x, y)
    {
      if x >= width || y >= width {
        return Err(RequestOutOfBounds);
      }
      var start := x * 4 + y * stride;
      var slice := [data[start + 2], data[start + 1], data[start + 0], data[start + 3]];
      return Ok(RGBAFromBytes(slice));
    }
  }
}
