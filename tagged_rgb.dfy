/** The tag-driven interleaved RGB buffer: a fourcc tag chooses the order in
    which the red, green, blue and (optionally) alpha bytes of a pixel are
    stored. */
module TaggedRGB {
  import opened Pixels

  /** A colour component; its index is its position in the `[r, g, b, a]`
      byte array of a colour. */
  datatype RGBComponent = Red | Green | Blue | Alpha {
    function Index(): (i: nat)
      ensures i < 4
    {
      match this
      case Red => 0
      case Green => 1
      case Blue => 2
      case Alpha => 3
    }
  }

  /** The tags that decode to a four-byte layout. */
  const AlphaTags: set<string> := {"RGBA", "BGRA", "ARGB", "ABGR"}

  /** The component order of a tag; "RGB" and every unknown tag get
      red, green, blue. */
  function DecodeComponentOrder(fourcc: string): (order: seq<RGBComponent>)
    ensures |order| == 3 || |order| == 4
    ensures forall i, j :: 0 <= i < j < |order| ==> order[i] != order[j]
    ensures Red in order && Green in order && Blue in order
    ensures Alpha in order <==> fourcc in AlphaTags
    ensures |order| == 4 <==> fourcc in AlphaTags
    ensures fourcc !in AlphaTags && fourcc != "BGR" ==> order == [Red, Green, Blue]
  {
    match fourcc
    case "BGR" => [Blue, Green, Red]
    case "RGBA" => [Red, Green, Blue, Alpha]
    case "BGRA" => [Blue, Green, Red, Alpha]
    case "ARGB" => [Alpha, Red, Green, Blue]
    case "ABGR" => [Alpha, Blue, Green, Red]
    case _ => [Red, Green, Blue]
  }

  /** The stored bytes of a colour: component `order[i]` of `[r, g, b, a]`
      at position `i`. */
  function Encode(color: RGBAColor, order: seq<RGBComponent>): (s: seq<Byte>)
    ensures |s| == |order|
    ensures forall i :: 0 <= i < |order| ==> s[i] == color.Bytes()[order[i].Index()]
  {
    seq(|order|, i requires 0 <= i < |order| => color.Bytes()[order[i].Index()])
  }

  /** The colour array a read starts from: black, fully opaque. */
  const Default: seq<Byte> := [0, 0, 0, 255]

  /** The colour array after copying `bytes[i]` into slot `order[i]` for
      each `i` in turn. */
  function Gather(bytes: seq<Byte>, order: seq<RGBComponent>): (c: seq<Byte>)
    requires |bytes| == |order|
    ensures |c| == 4
    decreases |order|
  {
    if |order| == 0 then Default
    else
      var n := |order| - 1;
      Gather(bytes[..n], order[..n])[order[n].Index() := bytes[n]]
  }

  /** The colour a pixel stored at `start` reads back as. */
  function ReadColor(bytes: seq<Byte>, start: nat, order: seq<RGBComponent>): RGBAColor
    requires start + |order| <= |bytes|
  {
    RGBAFromBytes(Gather(bytes[start..start + |order|], order))
  }

  /** What survives a store-and-read through `order`: the components it
      names, and the default bytes for the others. */
  function Visible(color: RGBAColor, order: seq<RGBComponent>): RGBAColor {
    RGBAColor(
      if Red in order then color.r else 0,
      if Green in order then color.g else 0,
      if Blue in order then color.b else 0,
      if Alpha in order then color.a else 255)
  }

  /** Reading back the bytes of an encoded colour restores every component
      the order names and the default for the rest. */
  lemma {:induction false} GatherEncode(color: RGBAColor, order: seq<RGBComponent>)
    ensures forall k: RGBComponent ::
      Gather(Encode(color, order), order)[k.Index()] ==
        if k in order then color.Bytes()[k.Index()] else Default[k.Index()]
  {
    if |order| > 0 {
      var n := |order| - 1;
      assert Encode(color, order)[..n] == Encode(color, order[..n]);
      assert order == order[..n] + [order[n]];
      GatherEncode(color, order[..n]);
    }
  }

  lemma EncodeReadColor(color: RGBAColor, order: seq<RGBComponent>)
    ensures RGBAFromBytes(Gather(Encode(color, order), order)) == Visible(color, order)
  {
    GatherEncode(color, order);
    var g := Gather(Encode(color, order), order);
    assert g[Red.Index()] == g[0] && g[Green.Index()] == g[1];
    assert g[Blue.Index()] == g[2] && g[Alpha.Index()] == g[3];
  }

  /** Byte offset of pixel (x, y). */
  function PixelStart(x: nat, y: nat, len: nat, stride: nat): nat {
    x * len + y * stride
  }

  /** A pixel written with the order of `fourcc` reads back as the same
      colour, with alpha 255 when the tag has no alpha byte. */
  lemma SetThenGet(fourcc: string, bytes: seq<Byte>, start: nat, color: RGBAColor)
    requires start + |DecodeComponentOrder(fourcc)| <= |bytes|
    ensures var order := DecodeComponentOrder(fourcc);
      ReadColor(Overwrite(bytes, start, Encode(color, order)), start, order) ==
        if fourcc in AlphaTags then color else color.(a := 255)
  {
    var order := DecodeComponentOrder(fourcc);
    OverwriteRead(bytes, start, Encode(color, order));
    EncodeReadColor(color, order);
  }

  /** Writing one pixel leaves the colour of every other pixel of the image
      as it was. */
  lemma SetLeavesOthers(bytes: seq<Byte>, order: seq<RGBComponent>, width: nat, stride: nat,
                        x: nat, y: nat, x': nat, y': nat, color: RGBAColor)
    requires x < width && x' < width && stride >= width * |order| && (x, y) != (x', y')
    requires PixelStart(x, y, |order|, stride) + |order| <= |bytes|
    requires PixelStart(x', y', |order|, stride) + |order| <= |bytes|
    ensures var start, other := PixelStart(x, y, |order|, stride), PixelStart(x', y', |order|, stride);
      ReadColor(Overwrite(bytes, start, Encode(color, order)), other, order) == ReadColor(bytes, other, order)
  {
    var start, other := PixelStart(x, y, |order|, stride), PixelStart(x', y', |order|, stride);
    CellsDisjoint(|order|, stride, width, x, y, x', y');
    OverwriteElsewhere(bytes, start, Encode(color, order), other, other + |order|);
  }

  /** Every pixel of a background-filled image reads back as the fill colour
      (alpha 255 for three-byte tags) when the stride holds a whole row. */
  lemma BackgroundColor(fourcc: string, color: RGBAColor, width: nat, height: nat, stride: nat, x: nat, y: nat)
    requires stride >= width * |DecodeComponentOrder(fourcc)|
    requires x < width && y < height
    ensures var order := DecodeComponentOrder(fourcc);
      var bytes := BackgroundBytes(color, order, width, height, stride);
      PixelStart(x, y, |order|, stride) + |order| <= |bytes| &&
      ReadColor(bytes, PixelStart(x, y, |order|, stride), order) ==
        if fourcc in AlphaTags then color else color.(a := 255)
  {
    var order := DecodeComponentOrder(fourcc);
    PaddedStore(color, order, width, height, stride);
    BackgroundRead(order, color, width, height, stride, x, y);
    VisibleOfTag(fourcc, color);
  }

  /** The store `new_with_background` builds: padded rows when the stride
      exceeds a row of pixels, one repetition of the pixel otherwise. */
  function BackgroundBytes(color: RGBAColor, order: seq<RGBComponent>, width: nat, height: nat, stride: nat): seq<Byte> {
    if stride > width * |order| then Background(Encode(color, order), width, stride - width * |order|, height)
    else Repeat(Encode(color, order), width * height)
  }

  /** A stride that holds a row makes both branches of the background store
      the padded form. */
  lemma PaddedStore(color: RGBAColor, order: seq<RGBComponent>, width: nat, height: nat, stride: nat)
    requires stride >= width * |order|
    ensures BackgroundBytes(color, order, width, height, stride) ==
      Background(Encode(color, order), width, stride - width * |order|, height)
  {
    if stride <= width * |order| {
      PackedBackground(Encode(color, order), width, height);
    }
  }

  /** `BackgroundColor` for any component order: every pixel reads back as
      the visible part of the fill colour. */
  lemma BackgroundRead(order: seq<RGBComponent>, color: RGBAColor, width: nat, height: nat, stride: nat, x: nat, y: nat)
    requires stride >= width * |order|
    requires x < width && y < height
    ensures var bytes := Background(Encode(color, order), width, stride - width * |order|, height);
      PixelStart(x, y, |order|, stride) + |order| <= |bytes| &&
      ReadColor(bytes, PixelStart(x, y, |order|, stride), order) == Visible(color, order)
  {
    var unit := Encode(color, order);
    var start := PixelStart(x, y, |order|, stride);
    var bytes := Background(unit, width, stride - width * |order|, height);
    assert bytes == Background(unit, width, stride - |unit| * width, height) by {
      assert width * |order| == |unit| * width;
    }
    BackgroundCell(unit, width, stride, height, x, y);
    assert start == x * |unit| + y * stride;
    CellReadsAs(bytes, start, order, color);
  }

  /** A pixel whose bytes are an encoded colour reads back as its visible
      part. */
  lemma CellReadsAs(bytes: seq<Byte>, start: nat, order: seq<RGBComponent>, color: RGBAColor)
    requires start + |order| <= |bytes| && bytes[start..start + |order|] == Encode(color, order)
    ensures ReadColor(bytes, start, order) == Visible(color, order)
  {
    EncodeReadColor(color, order);
  }

  /** Every tag keeps red, green and blue; only the alpha tags keep alpha. */
  lemma VisibleOfTag(fourcc: string, color: RGBAColor)
    ensures Visible(color, DecodeComponentOrder(fourcc)) == if fourcc in AlphaTags then color else color.(a := 255)
  {
  }

  class RGBPixelBuffer {
    const width: nat
    const height: nat
    const stride: nat
    const fourcc: string
    const order: seq<RGBComponent>
    const data: array<Byte>

    /** Byte offset of pixel (x, y). */
    function Start(x: nat, y: nat): nat {
      PixelStart(x, y, |order|, stride)
    }

    /** Whether the bytes of pixel (x, y) lie inside the store. */
    predicate Addressable(x: nat, y: nat) {
      Start(x, y) + |order| <= data.Length
    }

    /** The colour pixel (x, y) currently reads as. */
    function StoredColor(x: nat, y: nat): RGBAColor
      requires Addressable(x, y)
      reads data
    {
      ReadColor(data[..], Start(x, y), order)
    }

    /** `new`: a zero-filled store of `stride * height` bytes. */
    constructor New(width: nat, height: nat, stride: Option<nat>, fourcc: Option<string>)
      ensures this.width == width && this.height == height
      ensures this.fourcc == fourcc.GetOr("RGB") && order == DecodeComponentOrder(this.fourcc)
      ensures this.stride == stride.GetOr(width * |order|)
      ensures fresh(data) && data[..] == Zeros(this.stride * height)
    {
      var f := fourcc.GetOr("RGB");
      var componentOrder := DecodeComponentOrder(f);
      var lineWidth := stride.GetOr(width * |componentOrder|);
      this.width := width;
      this.height := height;
      this.stride := lineWidth;
      this.fourcc := f;
      this.order := componentOrder;
      data := new Byte[lineWidth * height](_ => 0);
    }

    /** Takes over `bytes` as the store. */
    constructor Adopt(width: nat, height: nat, stride: nat, fourcc: string, order: seq<RGBComponent>, bytes: seq<Byte>)
      ensures this.width == width && this.height == height && this.stride == stride
      ensures this.fourcc == fourcc && this.order == order
      ensures fresh(data) && data[..] == bytes
    {
      this.width := width;
      this.height := height;
      this.stride := stride;
      this.fourcc := fourcc;
      this.order := order;
      data := new Byte[|bytes|](i requires 0 <= i < |bytes| => bytes[i]);
    }

    /** `new_with_data`: keeps `bytes` unchanged, or fails when they are
        fewer than `stride * height`. */
    static method NewWithData(width: nat, height: nat, bytes: seq<Byte>, stride: Option<nat>, fourcc: Option<string>)
      returns (r: Result<RGBPixelBuffer>)
      ensures var order := DecodeComponentOrder(fourcc.GetOr("RGB"));
        r.Err? <==> |bytes| < stride.GetOr(width * |order|) * height
      ensures r.Err? ==> r.error == BufferTooSmall
      ensures r.Ok? ==>
        var b := r.value;
        fresh(b) && fresh(b.data) && b.width == width && b.height == height &&
        b.fourcc == fourcc.GetOr("RGB") && b.order == DecodeComponentOrder(b.fourcc) &&
        b.stride == stride.GetOr(width * |b.order|) && b.data[..] == bytes
    {
      var f := fourcc.GetOr("RGB");
      var componentOrder := DecodeComponentOrder(f);
      if |bytes| < stride.GetOr(width * |componentOrder|) * height {
        return Err(BufferTooSmall);
      }
      var b := new RGBPixelBuffer.Adopt(width, height, stride.GetOr(width * |componentOrder|), f, componentOrder, bytes);
      return Ok(b);
    }

    /** `new_with_background`: every pixel holds `color`; when the stride is
        wider than a row of pixels, each row ends in zero bytes. */
    constructor WithBackground(width: nat, height: nat, color: RGBAColor, stride: Option<nat>, fourcc: Option<string>)
      ensures this.width == width && this.height == height
      ensures this.fourcc == fourcc.GetOr("RGB") && order == DecodeComponentOrder(this.fourcc)
      ensures this.stride == stride.GetOr(width * |order|)
      ensures fresh(data)
      ensures data[..] == BackgroundBytes(color, order, width, height, this.stride)
    {
      var f := fourcc.GetOr("RGB");
      var componentOrder := DecodeComponentOrder(f);
      var lineWidth := stride.GetOr(width * |componentOrder|);
      var representation := Encode(color, componentOrder);
      var bytes: seq<Byte>;
      if lineWidth > width * |componentOrder| {
        var line := Repeat(representation, width) + Zeros(lineWidth - width * |componentOrder|);
        bytes := Repeat(line, height);
      } else {
        bytes := Repeat(representation, width * height);
      }
      this.width := width;
      this.height := height;
      this.stride := lineWidth;
      this.fourcc := f;
      this.order := componentOrder;
      data := new Byte[|bytes|](i requires 0 <= i < |bytes| => bytes[i]);
    }

    /** `set_pixel`: fails on (x, y) outside the width-by-width square;
        otherwise writes the encoded colour over the pixel's bytes. */
    method SetPixel(x: nat, y: nat, color: RGBAColor) returns (r: Result<()>)
      requires !OutOfBounds(x, y, width) ==> Addressable(x, y)
      modifies data
      ensures r.Err? <==> OutOfBounds(x, y, width)
      ensures r.Err? ==> r.error == RequestOutOfBounds && data[..] == old(data[..])
      ensures r.Ok? ==> data[..] == Overwrite(old(data[..]), Start(x, y), Encode(color, order))
    {
      if x >= width || y >= width {
        return Err(RequestOutOfBounds);
      }
      var start := x * |order| + y * stride;
      var repr := color.Bytes();
      ghost var encoded := Encode(color, order);
      for i := 0 to |order|
        invariant forall k :: 0 <= k < data.Length ==>
          data[k] == if start <= k < start + i then encoded[k - start] else old(data[k])
      {
        data[start + i] := repr[order[i].Index()];
      }
      assert data[..] == Overwrite(old(data[..]), start, encoded);
      return Ok(());
    }

    /** `get_pixel`: fails on (x, y) outside the width-by-width square;
        otherwise assembles the colour from the pixel's bytes. */
    method GetPixel(x: nat, y: nat) returns (r: Result<RGBAColor>)
      requires !OutOfBounds(x, y, width) ==> Addressable(x, y)
      ensures r.Err? <==> OutOfBounds(x, y, width)
      ensures r.Err? ==> r.error == RequestOutOfBounds
      ensures r.Ok? ==> r.value == StoredColor(x, y)
    {
      if x >= width || y >= width {
        return Err(RequestOutOfBounds);
      }
      var start := x * |order| + y * stride;
      var color := Default;
      for i := 0 to |order|
        invariant color == Gather(data[start..start + i], order[..i])
      {
        assert data[start..start + i + 1][..i] == data[start..start + i];
        assert order[..i + 1][..i] == order[..i];
        color := color[order[i].Index() := data[start + i]];
      }
      assert order[..|order|] == order;
      return Ok(RGBAFromBytes(color));
    }
  }
}
