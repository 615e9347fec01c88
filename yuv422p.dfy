/** The planar 4:2:2 YUV buffer: a luma plane of `stride * height` bytes,
    then two half-width chroma planes. The tag says whether the U plane or
    the V plane comes first. */
module YUV422Planar {
  import opened Pixels
  import YUVInterleaved

  /** The plane order of a tag: "YV21" and "YVU" put V first, every other
      tag, "YV12" and "YUV" among them, puts U first. */
  function DecodeComponentOrder(fourcc: string): (order: seq<YUVInterleaved.YUVComponent>)
    ensures |order| == 2 && order[0] != order[1]
    ensures (order[0] == YUVInterleaved.U && order[1] == YUVInterleaved.V) || (order[0] == YUVInterleaved.V && order[1] == YUVInterleaved.U)
    ensures order[0] == YUVInterleaved.V <==> fourcc in {"YV21", "YVU"}
  {
    match fourcc
    case "YV21" => [YUVInterleaved.V, YUVInterleaved.U]
    case "YVU" => [YUVInterleaved.V, YUVInterleaved.U]
    case _ => [YUVInterleaved.U, YUVInterleaved.V]
  }

  /** Offset of the luma byte of pixel (x, y). */
  function LumaOffset(x: nat, y: nat, stride: nat): nat {
    x + y * stride
  }

  /** Offset of pixel (x, y) in the plane after the luma plane; both pixels
      of a horizontal pair share it. */
  function Plane1Offset(x: nat, y: nat, stride: nat, height: nat): nat {
    stride * height + x / 2 + y * stride / 2
  }

  /** Offset of pixel (x, y) in the last plane. */
  function Plane2Offset(x: nat, y: nat, stride: nat, height: nat): nat {
    Plane1Offset(x, y, stride, height) + stride * height / 2
  }

  /** The colour read from the luma byte and the two plane bytes; `uFirst`
      says whether the first plane is the U plane. */
  function ReadPlanar(bytes: seq<Byte>, luma: nat, p1: nat, p2: nat, uFirst: bool): YCbCrColor
    requires luma < |bytes| && p1 < |bytes| && p2 < |bytes|
  {
    if uFirst then YCbCrColor(bytes[luma], bytes[p1], bytes[p2])
    else YCbCrColor(bytes[luma], bytes[p2], bytes[p1])
  }

  /** The store after a write: the luma byte is overwritten, then the cb
      byte (first plane when `uFirst`, else last) and then the cr byte are
      averaged with the incoming chroma, each reading the store as left by
      the previous step. */
  function WritePlanar(bytes: seq<Byte>, luma: nat, p1: nat, p2: nat, uFirst: bool, color: YCbCrColor): (r: seq<Byte>)
    requires luma < |bytes| && p1 < |bytes| && p2 < |bytes|
    ensures |r| == |bytes|
  {
    var d := bytes[luma := color.y];
    if uFirst then
      var d' := d[p1 := Average(d[p1], color.cb)];
      d'[p2 := Average(d'[p2], color.cr)]
    else
      var d' := d[p2 := Average(d[p2], color.cb)];
      d'[p1 := Average(d'[p1], color.cr)]
  }

  /** The three bytes of an in-image pixel are distinct when the luma plane
      holds at least two bytes. */
  lemma OffsetsDistinct(x: nat, y: nat, stride: nat, height: nat)
    requires x < stride && y < height && stride * height >= 2
    ensures LumaOffset(x, y, stride) < Plane1Offset(x, y, stride, height) < Plane2Offset(x, y, stride, height)
  {
    MulMono(y + 1, height, stride);
    assert (y + 1) * stride == y * stride + stride;
  }

  /** Reading three distinct bytes after writing them. */
  lemma ReadAfterWrite(bytes: seq<Byte>, luma: nat, p1: nat, p2: nat, uFirst: bool, color: YCbCrColor)
    requires luma < p1 < p2 < |bytes|
    ensures var before := ReadPlanar(bytes, luma, p1, p2, uFirst);
      var after := WritePlanar(bytes, luma, p1, p2, uFirst, color);
      ReadPlanar(after, luma, p1, p2, uFirst) == YCbCrColor(color.y, Average(before.cb, color.cb), Average(before.cr, color.cr)) &&
      forall k :: 0 <= k < |bytes| && k != luma && k != p1 && k != p2 ==> after[k] == bytes[k]
  {
  }

  /** A write and a read of the same pixel: the written luma, and the old
      chroma averaged with the written chroma; every other byte unchanged. */
  lemma SetThenGet(bytes: seq<Byte>, x: nat, y: nat, stride: nat, height: nat, uFirst: bool, color: YCbCrColor)
    requires x < stride && y < height && stride * height >= 2
    requires Plane2Offset(x, y, stride, height) < |bytes|
    ensures var luma, p1, p2 := LumaOffset(x, y, stride), Plane1Offset(x, y, stride, height), Plane2Offset(x, y, stride, height);
      luma < p1 < p2 < |bytes| &&
      var before := ReadPlanar(bytes, luma, p1, p2, uFirst);
      var after := WritePlanar(bytes, luma, p1, p2, uFirst, color);
      ReadPlanar(after, luma, p1, p2, uFirst) == YCbCrColor(color.y, Average(before.cb, color.cb), Average(before.cr, color.cr)) &&
      forall k :: 0 <= k < |bytes| && k != luma && k != p1 && k != p2 ==> after[k] == bytes[k]
  {
    OffsetsDistinct(x, y, stride, height);
    ReadAfterWrite(bytes, LumaOffset(x, y, stride), Plane1Offset(x, y, stride, height), Plane2Offset(x, y, stride, height), uFirst, color);
  }

  /** Both pixels of a horizontal pair read the same chroma. */
  lemma SharedChroma(bytes: seq<Byte>, k: nat, y: nat, stride: nat, height: nat, uFirst: bool)
    requires Plane2Offset(2 * k + 1, y, stride, height) < |bytes| && LumaOffset(2 * k + 1, y, stride) < |bytes|
    ensures var even := ReadPlanar(bytes, LumaOffset(2 * k, y, stride), Plane1Offset(2 * k, y, stride, height), Plane2Offset(2 * k, y, stride, height), uFirst);
      var odd := ReadPlanar(bytes, LumaOffset(2 * k + 1, y, stride), Plane1Offset(2 * k + 1, y, stride, height), Plane2Offset(2 * k + 1, y, stride, height), uFirst);
      even.cb == odd.cb && even.cr == odd.cr
  {
    assert (2 * k) / 2 == (2 * k + 1) / 2;
  }

  /** Padding after each row of a plane: the row's excess over the pixel
      width for the luma plane, half of it for the chroma planes. */
  function Pad(width: nat, lineWidth: nat): nat {
    if lineWidth > width then lineWidth - width else 0
  }

  /** The store `new_with_background` builds: the luma plane, then the U and
      V planes in tag order. */
  function BackgroundBytes(color: YCbCrColor, uFirst: bool, width: nat, height: nat, lineWidth: nat): seq<Byte> {
    var pad := Pad(width, lineWidth);
    var u := Background([color.cb], width / 2, pad / 2, height);
    var v := Background([color.cr], width / 2, pad / 2, height);
    Background([color.y], width, pad, height) + if uFirst then u + v else v + u
  }

  /** A row of `count` copies of `unit`, extended by `extra` zeros when
      `padded` holds, is the row followed by `pad` zeros. */
  lemma PaddedRow(unit: seq<Byte>, count: nat, padded: bool, extra: int, pad: nat, row: seq<Byte>)
    requires padded ==> extra >= 0 && pad == extra && row == Repeat(unit, count) + Zeros(extra)
    requires !padded ==> pad == 0 && row == Repeat(unit, count)
    ensures row == Repeat(unit, count) + Zeros(pad)
  {
    if !padded {
      assert row + Zeros(0) == row;
    }
  }

  /** The luma rows followed by the two chroma planes in tag order make up
      the background store. */
  lemma AssembledPlanes(color: YCbCrColor, uFirst: bool, width: nat, height: nat, lineWidth: nat,
                        y: seq<Byte>, u: seq<Byte>, v: seq<Byte>, bytes: seq<Byte>)
    requires y == Repeat([color.y], width) + Zeros(Pad(width, lineWidth))
    requires u == Repeat([color.cb], width / 2) + Zeros(Pad(width, lineWidth) / 2)
    requires v == Repeat([color.cr], width / 2) + Zeros(Pad(width, lineWidth) / 2)
    requires bytes == if uFirst then Repeat(y, height) + Repeat(u, height) + Repeat(v, height)
                      else Repeat(y, height) + Repeat(v, height) + Repeat(u, height)
    ensures bytes == BackgroundBytes(color, uFirst, width, height, lineWidth)
  {
    var l, a, b := Repeat(y, height), Repeat(u, height), Repeat(v, height);
    if uFirst {
      ConcatAssoc(l, a, b);
    } else {
      ConcatAssoc(l, b, a);
    }
  }

  lemma ConcatAssoc(a: seq<Byte>, b: seq<Byte>, c: seq<Byte>)
    ensures a + b + c == a + (b + c)
  {
  }

  /** Sample `x` of row `y` of a one-byte-per-sample plane. */
  lemma PlaneSample(value: Byte, count: nat, pad: nat, rowLen: nat, height: nat, x: nat, y: nat)
    requires rowLen == count + pad && x < count && y < height
    ensures var plane := Background([value], count, pad, height);
      |plane| == rowLen * height &&
      x + y * rowLen < |plane| && plane[x + y * rowLen] == value
  {
    assert |[value]| * count == count;
    BackgroundUnit([value], count, rowLen, height, x, y, 0);
  }

  /** Halving a product with an even factor. */
  lemma HalfProduct(a: nat, b: nat)
    requires a % 2 == 0
    ensures a * b / 2 == (a / 2) * b && b * a / 2 == b * (a / 2)
  {
    assert a * b == (a / 2) * b * 2;
    DivModUnique(a * b, 2, (a / 2) * b, 0);
  }

  /** With an even line width, the plane offsets of pixel (x, y) are
      sample `x / 2 + y * (lineWidth / 2)` of a plane of `lineWidth / 2`-byte
      rows that starts after the luma plane, or after it and one chroma plane. */
  lemma PlaneOffsets(x: nat, y: nat, lineWidth: nat, height: nat)
    requires lineWidth % 2 == 0
    ensures var half, c := lineWidth / 2, x / 2 + y * (lineWidth / 2);
      Plane1Offset(x, y, lineWidth, height) == lineWidth * height + c &&
      Plane2Offset(x, y, lineWidth, height) == lineWidth * height + half * height + c
  {
    HalfProduct(lineWidth, y);
    HalfProduct(lineWidth, height);
  }

  /** Indexing the three planes of a store. */
  lemma ThreePlanes(luma: seq<Byte>, first: seq<Byte>, second: seq<Byte>, i: nat, c: nat)
    requires i < |luma| && c < |first| && |first| == |second|
    ensures var bytes := luma + first + second;
      bytes[i] == luma[i] && bytes[|luma| + c] == first[c] && bytes[|luma| + |first| + c] == second[c]
  {
  }

  /** With an even width and an even line width at least the width, every
      pixel of a background store reads back as the fill colour. */
  lemma BackgroundGet(fourcc: string, color: YCbCrColor, width: nat, height: nat, lineWidth: nat, x: nat, y: nat)
    requires width % 2 == 0 && lineWidth % 2 == 0 && lineWidth >= width
    requires x < width && y < height
    ensures var uFirst := DecodeComponentOrder(fourcc)[0] == YUVInterleaved.U;
      var bytes := BackgroundBytes(color, uFirst, width, height, lineWidth);
      var luma, p1, p2 := LumaOffset(x, y, lineWidth), Plane1Offset(x, y, lineWidth, height), Plane2Offset(x, y, lineWidth, height);
      luma < |bytes| && p1 < |bytes| && p2 < |bytes| &&
      ReadPlanar(bytes, luma, p1, p2, uFirst) == color
  {
    var uFirst := DecodeComponentOrder(fourcc)[0] == YUVInterleaved.U;
    var pad := Pad(width, lineWidth);
    var lumaPlane := Background([color.y], width, pad, height);
    var u := Background([color.cb], width / 2, pad / 2, height);
    var v := Background([color.cr], width / 2, pad / 2, height);
    var c := x / 2 + y * (lineWidth / 2);
    BackgroundPlanes(color, width, height, lineWidth, x, y);
    PlaneOffsets(x, y, lineWidth, height);
    PlanesRead(BackgroundBytes(color, uFirst, width, height, lineWidth), lumaPlane, u, v, uFirst,
               LumaOffset(x, y, lineWidth), Plane1Offset(x, y, lineWidth, height), Plane2Offset(x, y, lineWidth, height), c, color);
  }

  /** The samples of pixel (x, y) in the three planes of a background
      store: plane rows `lineWidth` and `lineWidth / 2` bytes long. */
  lemma BackgroundPlanes(color: YCbCrColor, width: nat, height: nat, lineWidth: nat, x: nat, y: nat)
    requires width % 2 == 0 && lineWidth % 2 == 0 && lineWidth >= width
    requires x < width && y < height
    ensures var pad := Pad(width, lineWidth);
      var lumaPlane := Background([color.y], width, pad, height);
      |lumaPlane| == lineWidth * height && x + y * lineWidth < |lumaPlane| && lumaPlane[x + y * lineWidth] == color.y
    ensures var pad, half := Pad(width, lineWidth), lineWidth / 2;
      var u := Background([color.cb], width / 2, pad / 2, height);
      |u| == half * height && x / 2 + y * half < |u| && u[x / 2 + y * half] == color.cb
    ensures var pad, half := Pad(width, lineWidth), lineWidth / 2;
      var v := Background([color.cr], width / 2, pad / 2, height);
      |v| == half * height && x / 2 + y * half < |v| && v[x / 2 + y * half] == color.cr
  {
    var pad, half := Pad(width, lineWidth), lineWidth / 2;
    assert width + pad == lineWidth && width / 2 + pad / 2 == half;
    PlaneSample(color.y, width, pad, lineWidth, height, x, y);
    PlaneSample(color.cb, width / 2, pad / 2, half, height, x / 2, y);
    PlaneSample(color.cr, width / 2, pad / 2, half, height, x / 2, y);
  }

  /** Reading a pixel from a store made of a luma plane and two equally
      sized chroma planes, U first exactly when `uFirst`. */
  lemma PlanesRead(bytes: seq<Byte>, luma: seq<Byte>, u: seq<Byte>, v: seq<Byte>, uFirst: bool,
                   l: nat, p1: nat, p2: nat, c: nat, color: YCbCrColor)
    requires bytes == luma + if uFirst then u + v else v + u
    requires l < |luma| && c < |u| && |u| == |v| && p1 == |luma| + c && p2 == |luma| + |u| + c
    requires luma[l] == color.y && u[c] == color.cb && v[c] == color.cr
    ensures l < |bytes| && p1 < |bytes| && p2 < |bytes| && ReadPlanar(bytes, l, p1, p2, uFirst) == color
  {
    if uFirst {
      ThreePlanes(luma, u, v, l, c);
    } else {
      ThreePlanes(luma, v, u, l, c);
    }
  }

  class YUV422pPixelBuffer {
    const width: nat
    const height: nat
    const stride: nat
    const fourcc: string
    const order: seq<YUVInterleaved.YUVComponent>
    const data: array<Byte>

    function Luma(x: nat, y: nat): nat {
      LumaOffset(x, y, stride)
    }

    function Plane1(x: nat, y: nat): nat {
      Plane1Offset(x, y, stride, height)
    }

    function Plane2(x: nat, y: nat): nat {
      Plane2Offset(x, y, stride, height)
    }

    /** Whether the three bytes of pixel (x, y) lie inside the store. */
    predicate Addressable(x: nat, y: nat) {
      |order| > 0 && Luma(x, y) < data.Length && Plane1(x, y) < data.Length && Plane2(x, y) < data.Length
    }

    /** The colour pixel (x, y) currently reads as. */
    function StoredColor(x: nat, y: nat): YCbCrColor
      requires Addressable(x, y)
      reads data
    {
      ReadPlanar(data[..], Luma(x, y), Plane1(x, y), Plane2(x, y), order[0] == YUVInterleaved.U)
    }

    /** `new`: stores a default stride of `width` but allocates
        `stride.unwrap_or(width * 2) * height` zero bytes. */
    constructor New(width: nat, height: nat, stride: Option<nat>, fourcc: Option<string>)
      ensures this.width == width && this.height == height
      ensures this.fourcc == fourcc.GetOr("YV12") && order == DecodeComponentOrder(this.fourcc)
      ensures this.stride == stride.GetOr(width)
      ensures fresh(data) && data[..] == Zeros(stride.GetOr(width * 2) * height)
    {
      var f := fourcc.GetOr("YV12");
      var lineWidth := stride.GetOr(width * 2);
      this.width := width;
      this.height := height;
      this.stride := stride.GetOr(width);
      this.fourcc := f;
      this.order := DecodeComponentOrder(f);
      data := new Byte[lineWidth * height](_ => 0);
    }

    /** Takes over `bytes` as the store. */
    constructor Adopt(width: nat, height: nat, stride: nat, fourcc: string, bytes: seq<Byte>)
      ensures this.width == width && this.height == height && this.stride == stride
      ensures this.fourcc == fourcc && this.order == DecodeComponentOrder(fourcc)
      ensures fresh(data) && data[..] == bytes
    {
      this.width := width;
      this.height := height;
      this.stride := stride;
      this.fourcc := fourcc;
      this.order := DecodeComponentOrder(fourcc);
      data := new Byte[|bytes|](i requires 0 <= i < |bytes| => bytes[i]);
    }

    /** `new_with_data`: the size check covers the luma plane only. */
    static method NewWithData(width: nat, height: nat, bytes: seq<Byte>, stride: Option<nat>, fourcc: Option<string>)
      returns (r: Result<YUV422pPixelBuffer>)
      ensures r.Err? <==> |bytes| < stride.GetOr(width) * height
      ensures r.Err? ==> r.error == BufferTooSmall
      ensures r.Ok? ==>
        var b := r.value;
        fresh(b) && fresh(b.data) && b.width == width && b.height == height &&
        b.fourcc == fourcc.GetOr("YV12") && b.order == DecodeComponentOrder(b.fourcc) &&
        b.stride == stride.GetOr(width) && b.data[..] == bytes
    {
      if |bytes| < stride.GetOr(width) * height {
        return Err(BufferTooSmall);
      }
      var f := fourcc.GetOr("YV12");
      var b := new YUV422pPixelBuffer.Adopt(width, height, stride.GetOr(width), f, bytes);
      return Ok(b);
    }

    /** `new_with_background`: a luma plane of rows of `width` lumas, then a
        U plane and a V plane (in tag order) of rows of `width / 2` samples,
        each row zero-padded when the line width exceeds the width. */
    constructor WithBackground(width: nat, height: nat, color: YCbCrColor, stride: Option<nat>, fourcc: Option<string>)
      ensures this.width == width && this.height == height
      ensures this.fourcc == fourcc.GetOr("YV12") && order == DecodeComponentOrder(this.fourcc)
      ensures this.stride == stride.GetOr(width)
      ensures fresh(data) && data[..] == BackgroundBytes(color, order[0] == YUVInterleaved.U, width, height, this.stride)
    {
      var f := fourcc.GetOr("YV12");
      var componentOrder := DecodeComponentOrder(f);
      var lineWidth := stride.GetOr(width);
      var y := Repeat([color.y], width);
      var u := Repeat([color.cb], width / 2);
      var v := Repeat([color.cr], width / 2);
      if lineWidth > width {
        y := y + Zeros(lineWidth - width);
        u := u + Zeros((lineWidth - width) / 2);
        v := v + Zeros((lineWidth - width) / 2);
      }
      PaddedRow([color.y], width, lineWidth > width, lineWidth - width, Pad(width, lineWidth), y);
      PaddedRow([color.cb], width / 2, lineWidth > width, (lineWidth - width) / 2, Pad(width, lineWidth) / 2, u);
      PaddedRow([color.cr], width / 2, lineWidth > width, (lineWidth - width) / 2, Pad(width, lineWidth) / 2, v);
      var bytes := Repeat(y, height);
      if componentOrder[0] == YUVInterleaved.U {
        bytes := bytes + Repeat(u, height) + Repeat(v, height);
      } else {
        bytes := bytes + Repeat(v, height) + Repeat(u, height);
      }
      AssembledPlanes(color, componentOrder[0] == YUVInterleaved.U, width, height, lineWidth, y, u, v, bytes);
      this.width := width;
      this.height := height;
      this.stride := lineWidth;
      this.fourcc := f;
      this.order := componentOrder;
      data := new Byte[|bytes|](i requires 0 <= i < |bytes| => bytes[i]);
    }

    /** `set_pixel`: fails on (x, y) outside the width-by-width square;
        otherwise overwrites the luma byte and averages the two plane bytes
        with the incoming chroma. */
    method SetPixel(x: nat, y: nat, color: YCbCrColor) returns (r: Result<()>)
      requires !OutOfBounds(x, y, width) ==> Addressable(x, y)
      modifies data
      ensures r.Err? <==> OutOfBounds(x, y, width)
      ensures r.Err? ==> r.error == RequestOutOfBounds && data[..] == old(data[..])
      ensures r.Ok? ==> data[..] == WritePlanar(old(data[..]), Luma(x, y), Plane1(x, y), Plane2(x, y), order[0] == YUVInterleaved.U, color)
    {
      if x >= width || y >= width {
        return Err(RequestOutOfBounds);
      }
      var start := x + y * stride;
      var plane1 := stride * height + x / 2 + y * stride / 2;
      var plane2 := plane1 + stride * height / 2;
      data[start] := color.y;
      if order[0] == YUVInterleaved.U {
        data[plane1] := Average(data[plane1], color.cb);
        data[plane2] := Average(data[plane2], color.cr);
      } else {
        data[plane2] := Average(data[plane2], color.cb);
        data[plane1] := Average(data[plane1], color.cr);
      }
      return Ok(());
    }

    /** `get_pixel`: fails on (x, y) outside the width-by-width square;
        otherwise reads the luma byte and the chroma from the planes in tag
        order. */
    method GetPixel(x: nat, y: nat) returns (r: Result<YCbCrColor>)
      requires !OutOfBounds(x, y, width) ==> Addressable(x, y)
      ensures r.Err? <==> OutOfBounds(x, y, width)
      ensures r.Err? ==> r.error == RequestOutOfBounds
      ensures r.Ok? ==> r.value == StoredColor(x, y)
    {
      if x >= width || y >= width {
        return Err(RequestOutOfBounds);
      }
      var start := x + y * stride;
      var plane1 := stride * height + x / 2 + y * stride / 2;
      var plane2 := plane1 + stride * height / 2;
      var u, v;
      if order[0] == YUVInterleaved.U {
        u := data[plane1];
        v := data[plane2];
      } else {
        v := data[plane1];
        u := data[plane2];
      }
      return Ok(YCbCrColor(data[start], u, v));
    }
  }
}
