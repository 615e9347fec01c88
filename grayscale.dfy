/** The interleaved grayscale buffer: each pixel occupies one to three bytes,
    one of which holds the luma value while the others are ignored. */
module Grayscale {
  import opened Pixels

  datatype GrayscaleComponent = Value | Ignore

  /** The tags whose layout has more than one byte per pixel. */
  const PaddedTags: set<string> := {"Yxx", "Yx", "xY"}

  /** Position of the value byte inside a pixel. */
  function ValueIndex(fourcc: string): nat {
    if fourcc == "xY" then 1 else 0
  }

  /** The component order of a tag; "Y" and every unknown tag get a single
      value byte. */
  function DecodeComponentOrder(fourcc: string): (order: seq<GrayscaleComponent>)
    ensures 1 <= |order| <= 3
    ensures |order| == 1 <==> fourcc !in PaddedTags
    ensures fourcc == "Yxx" <==> |order| == 3
    ensures ValueIndex(fourcc) < |order| && order[ValueIndex(fourcc)] == Value
    ensures forall i :: 0 <= i < |order| && i != ValueIndex(fourcc) ==> order[i] == Ignore
  {
    match fourcc
    case "Y" => [Value]
    case "Yxx" => [Value, Ignore, Ignore]
    case "Yx" => [Value, Ignore]
    case "xY" => [Ignore, Value]
    case _ => [Value]
  }

  /** Whether every value byte of a pixel starting at `start` lies below `len`. */
  predicate ValueSlotsBelow(len: nat, start: nat, order: seq<GrayscaleComponent>) {
    forall i :: 0 <= i < |order| && order[i] == Value ==> start + i < len
  }

  /** The value a read starting at `start` produces: the byte under the last
      value slot, or 0 when the order has none. */
  function ReadValue(bytes: seq<Byte>, start: nat, order: seq<GrayscaleComponent>): Byte
    requires ValueSlotsBelow(|bytes|, start, order)
    decreases |order|
  {
    if |order| == 0 then 0
    else
      var n := |order| - 1;
      if order[n] == Value then bytes[start + n] else ReadValue(bytes, start, order[..n])
  }

  /** The store after writing `v` under every value slot of the pixel at
      `start`; ignored bytes keep their contents. */
  function WriteValue(bytes: seq<Byte>, start: nat, order: seq<GrayscaleComponent>, v: Byte): (r: seq<Byte>)
    ensures |r| == |bytes|
  {
    seq(|bytes|, k requires 0 <= k < |bytes| =>
      if start <= k < start + |order| && order[k - start] == Value then v else bytes[k])
  }

  /** One pixel of background: the value under the value slot, zero elsewhere. */
  function Representation(color: GrayscaleColor, order: seq<GrayscaleComponent>): (s: seq<Byte>)
    ensures |s| == |order|
    ensures forall i :: 0 <= i < |order| ==> s[i] == if order[i] == Value then color.v else 0
  {
    seq(|order|, i requires 0 <= i < |order| => if order[i] == Value then color.v else 0)
  }

  /** The store `new_with_background` builds: padded rows when the line
      width exceeds the pixel width, one repetition otherwise. */
  function BackgroundBytes(color: GrayscaleColor, order: seq<GrayscaleComponent>, width: nat, height: nat, lineWidth: nat): seq<Byte>
    requires lineWidth > width ==> lineWidth >= width * |order|
  {
    if lineWidth > width then Background(Representation(color, order), width, lineWidth - width * |order|, height)
    else Repeat(Representation(color, order), width * height)
  }

  /** With a one-byte layout, a value written at (x, y) reads back at (x, y). */
  lemma SetThenGet(fourcc: string, bytes: seq<Byte>, x: nat, y: nat, stride: nat, v: Byte)
    requires fourcc !in PaddedTags
    requires x + y * stride < |bytes|
    ensures var order := DecodeComponentOrder(fourcc);
      ValueSlotsBelow(|bytes|, x + y * stride, order) &&
      ReadValue(WriteValue(bytes, x * |order| + y * stride, order, v), x + y * stride, order) == v
  {
  }

  /** With a multi-byte layout, the read offset of pixel (x, y) differs from
      the write offset for every x > 0, so a read does not see the write. */
  lemma OffsetsDisagree(fourcc: string, x: nat, y: nat, stride: nat)
    requires fourcc in PaddedTags && x > 0
    ensures var order := DecodeComponentOrder(fourcc);
      x + y * stride < x * |order| + y * stride
  {
    var order := DecodeComponentOrder(fourcc);
    MulAtLeast(x, |order| - 1);
    assert x * |order| == x * (|order| - 1) + x;
  }

  /** The "Yx" layout after writing 7 at pixel (1, 0) of a zero store: the
      read of pixel (1, 0) lands on the ignored byte of pixel 0 and gives 0. */
  lemma WriteNotReadBack()
    ensures var order := DecodeComponentOrder("Yx");
      var bytes := WriteValue(Zeros(4), 1 * |order|, order, 7);
      ValueSlotsBelow(|bytes|, 1, order) && bytes[2] == 7 && ReadValue(bytes, 1, order) == 0
  {
    var order := DecodeComponentOrder("Yx");
    assert order == [Value, Ignore];
    assert order[..1] == [Value];
  }

  /** Writing a pixel changes only its value bytes. */
  lemma WriteKeepsIgnored(bytes: seq<Byte>, start: nat, order: seq<GrayscaleComponent>, v: Byte, k: nat)
    requires k < |bytes|
    requires !(start <= k < start + |order|) || order[k - start] == Ignore
    ensures WriteValue(bytes, start, order, v)[k] == bytes[k]
  {
  }

  /** Every pixel of a background store holds the representation of the
      colour at its write offset, whenever the line width covers a row. */
  lemma BackgroundCellAt(fourcc: string, color: GrayscaleColor, width: nat, height: nat, lineWidth: nat, x: nat, y: nat)
    requires var order := DecodeComponentOrder(fourcc); lineWidth >= width * |order|
    requires x < width && y < height
    ensures var order := DecodeComponentOrder(fourcc);
      var bytes := BackgroundBytes(color, order, width, height, lineWidth);
      var start := x * |order| + y * lineWidth;
      start + |order| <= |bytes| && bytes[start..start + |order|] == Representation(color, order)
  {
    var order := DecodeComponentOrder(fourcc);
    var rep := Representation(color, order);
    var pad := lineWidth - |rep| * width;
    var bytes := BackgroundBytes(color, order, width, height, lineWidth);
    assert bytes == Background(rep, width, pad, height) by {
      if lineWidth <= width {
        assert pad == 0 by {
          MulAtLeast(width, |rep|);
          assert width * |order| == |rep| * width;
        }
        PackedBackground(rep, width, height);
      } else {
        assert lineWidth - width * |order| == pad by {
          assert width * |order| == |rep| * width;
        }
      }
    }
    BackgroundCell(rep, width, lineWidth, height, x, y);
    assert x * |order| + y * lineWidth == x * |rep| + y * lineWidth;
  }

  /** With a one-byte layout, every pixel of a background store reads back
      as the fill value. */
  lemma BackgroundGet(fourcc: string, color: GrayscaleColor, width: nat, height: nat, lineWidth: nat, x: nat, y: nat)
    requires fourcc !in PaddedTags && lineWidth >= width
    requires x < width && y < height
    ensures var order := DecodeComponentOrder(fourcc);
      var bytes := BackgroundBytes(color, order, width, height, lineWidth);
      ValueSlotsBelow(|bytes|, x + y * lineWidth, order) &&
      ReadValue(bytes, x + y * lineWidth, order) == color.v
  {
    var order := DecodeComponentOrder(fourcc);
    assert |order| == 1 && width * |order| == width && x * |order| == x;
    BackgroundCellAt(fourcc, color, width, height, lineWidth, x, y);
    var bytes := BackgroundBytes(color, order, width, height, lineWidth);
    var start := x + y * lineWidth;
    assert bytes[start] == bytes[start..start + 1][0];
  }

  class GrayscalePixelBuffer {
    const width: nat
    const height: nat
    const stride: nat
    const fourcc: string
    const order: seq<GrayscaleComponent>
    const data: array<Byte>

    /** Offset `set_pixel` writes pixel (x, y) at. */
    function WriteStart(x: nat, y: nat): nat {
      x * |order| + y * stride
    }

    /** Offset `get_pixel` reads pixel (x, y) from. */
    function ReadStart(x: nat, y: nat): nat {
      x + y * stride
    }

    /** The value pixel (x, y) currently reads as. */
    function StoredColor(x: nat, y: nat): GrayscaleColor
      requires ValueSlotsBelow(data.Length, ReadStart(x, y), order)
      reads data
    {
      GrayscaleColor(ReadValue(data[..], ReadStart(x, y), order))
    }

    /** `new`: a zero-filled store; the default stride is `width * |order|`. */
    constructor New(width: nat, height: nat, stride: Option<nat>, fourcc: Option<string>)
      ensures this.width == width && this.height == height
      ensures this.fourcc == fourcc.GetOr("Y") && order == DecodeComponentOrder(this.fourcc)
      ensures this.stride == stride.GetOr(width * |order|)
      ensures fresh(data) && data[..] == Zeros(this.stride * height)
    {
      var f := fourcc.GetOr("Y");
      var componentOrder := DecodeComponentOrder(f);
      var lineWidth := stride.GetOr(width * |componentOrder|);
      this.width := width;
      this.height := height;
      this.stride := lineWidth;
      this.fourcc := f;
      this.order := componentOrder;
      data := new Byte[lineWidth * height](_ => 0);
    }

    /** Takes over `bytes` as the store. */
    constructor Adopt(width: nat, height: nat, stride: nat, fourcc: string, order: seq<GrayscaleComponent>, bytes: seq<Byte>)
      ensures this.width == width && this.height == height && this.stride == stride
      ensures this.fourcc == fourcc && this.order == order
      ensures fresh(data) && data[..] == bytes
    {
      this.width := width;
      this.height := height;
      this.stride := stride;
      this.fourcc := fourcc;
      this.order := order;
      data := new Byte[|bytes|](i requires 0 <= i < |bytes| => bytes[i]);
    }

    /** `new_with_data`: both the size check and the stored default stride
        use `width`, whatever the length of a pixel. */
    static method NewWithData(width: nat, height: nat, bytes: seq<Byte>, stride: Option<nat>, fourcc: Option<string>)
      returns (r: Result<GrayscalePixelBuffer>)
      ensures r.Err? <==> |bytes| < stride.GetOr(width) * height
      ensures r.Err? ==> r.error == BufferTooSmall
      ensures r.Ok? ==>
        var b := r.value;
        fresh(b) && fresh(b.data) && b.width == width && b.height == height &&
        b.fourcc == fourcc.GetOr("Y") && b.order == DecodeComponentOrder(b.fourcc) &&
        b.stride == stride.GetOr(width) && b.data[..] == bytes
    {
      if |bytes| < stride.GetOr(width) * height {
        return Err(BufferTooSmall);
      }
      var f := fourcc.GetOr("Y");
      var componentOrder := DecodeComponentOrder(f);
      var b := new GrayscalePixelBuffer.Adopt(width, height, stride.GetOr(width), f, componentOrder, bytes);
      return Ok(b);
    }

    /** `new_with_background`: every pixel holds the value under its value
        slot and zero under its ignored slots; rows are padded with zeros
        when the line width exceeds the pixel width. */
    constructor WithBackground(width: nat, height: nat, color: GrayscaleColor, stride: Option<nat>, fourcc: Option<string>)
      requires var order := DecodeComponentOrder(fourcc.GetOr("Y"));
        var lineWidth := stride.GetOr(width * |order|);
        lineWidth > width ==> lineWidth >= width * |order|
      ensures this.width == width && this.height == height
      ensures this.fourcc == fourcc.GetOr("Y") && order == DecodeComponentOrder(this.fourcc)
      ensures this.stride == stride.GetOr(width * |order|)
      ensures fresh(data) && data[..] == BackgroundBytes(color, order, width, height, this.stride)
    {
      var f := fourcc.GetOr("Y");
      var componentOrder := DecodeComponentOrder(f);
      var lineWidth := stride.GetOr(width * |componentOrder|);
      var representation: seq<Byte> := seq(|componentOrder|, _ => 0);
      for i := 0 to |componentOrder|
        invariant |representation| == |componentOrder|
        invariant forall k :: 0 <= k < i ==> representation[k] == Representation(color, componentOrder)[k]
        invariant forall k :: i <= k < |componentOrder| ==> representation[k] == 0
      {
        representation := representation[i := match componentOrder[i] case Value => color.v case Ignore => 0];
      }
      assert representation == Representation(color, componentOrder);
      var bytes: seq<Byte>;
      if lineWidth > width {
        var line := Repeat(representation, width) + Zeros(lineWidth - width * |componentOrder|);
        bytes := Repeat(line, height);
        assert bytes == Background(representation, width, lineWidth - width * |componentOrder|, height);
      } else {
        bytes := Repeat(representation, width * height);
      }
      this.width := width;
      this.height := height;
      this.stride := lineWidth;
      this.fourcc := f;
      this.order := componentOrder;
      data := new Byte[|bytes|](i requires 0 <= i < |bytes| => bytes[i]);
    }

    /** `set_pixel`: fails on (x, y) outside the width-by-width square;
        otherwise writes the value under the value slots at the write offset. */
    method SetPixel(x: nat, y: nat, color: GrayscaleColor) returns (r: Result<()>)
      requires !OutOfBounds(x, y, width) ==> ValueSlotsBelow(data.Length, WriteStart(x, y), order)
      modifies data
      ensures r.Err? <==> OutOfBounds(x, y, width)
      ensures r.Err? ==> r.error == RequestOutOfBounds && data[..] == old(data[..])
      ensures r.Ok? ==> data[..] == WriteValue(old(data[..]), WriteStart(x, y), order, color.v)
    {
      if x >= width || y >= width {
        return Err(RequestOutOfBounds);
      }
      var start := x * |order| + y * stride;
      for i := 0 to |order|
        invariant forall k :: 0 <= k < data.Length ==>
          data[k] == if start <= k < start + i && order[k - start] == Value then color.v else old(data[k])
      {
        match order[i]
        case Value => data[start + i] := color.v;
        case Ignore =>
      }
      assert data[..] == WriteValue(old(data[..]), start, order, color.v);
      return Ok(());
    }

    /** `get_pixel`: fails on (x, y) outside the width-by-width square;
        otherwise reads the value slot at the unscaled offset `x + y * stride`. */
    method GetPixel(x: nat, y: nat) returns (r: Result<GrayscaleColor>)
      requires !OutOfBounds(x, y, width) ==> ValueSlotsBelow(data.Length, ReadStart(x, y), order)
      ensures r.Err? <==> OutOfBounds(x, y, width)
      ensures r.Err? ==> r.error == RequestOutOfBounds
      ensures r.Ok? ==> r.value == StoredColor(x, y)
    {
      if x >= width || y >= width {
        return Err(RequestOutOfBounds);
      }
      var color := GrayscaleColor(0);
      var start := x + y * stride;
      for i := 0 to |order|
        invariant color.v == ReadValue(data[..], start, order[..i])
      {
        assert order[..i + 1][..i] == order[..i];
        match order[i]
        case Value => color := GrayscaleColor(data[start + i]);
        case Ignore =>
      }
      assert order[..|order|] == order;
      return Ok(color);
    }
  }
}
