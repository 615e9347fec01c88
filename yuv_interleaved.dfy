/** The interleaved 4:2:2 YUV buffer: two horizontally adjacent pixels share
    a four-byte macropixel holding both lumas and one chroma pair. A pair of
    component lists, one per pixel parity, says which byte of the macropixel
    a pixel reads and writes as which component. */
module YUVInterleaved {
  import opened Pixels

  datatype YUVComponent = Y | U | V | Ignore

  type ComponentList = s: seq<YUVComponent> | |s| == 4 witness [Y, U, Ignore, V]

  /** The tags with a table of their own; every other tag, "YUYV" and
      "YUV422" among them, gets the YUYV table. */
  const NamedTags: set<string> := {"YVYU", "UYVY", "VYUY"}

  /** The number of slots of `list` holding `c`. */
  function Count(list: ComponentList, c: YUVComponent): nat {
    (if list[0] == c then 1 else 0) + (if list[1] == c then 1 else 0) +
    (if list[2] == c then 1 else 0) + (if list[3] == c then 1 else 0)
  }

  /** Whether component `c` occurs exactly once in `list`. */
  predicate Once(list: ComponentList, c: YUVComponent) {
    Count(list, c) == 1
  }

  /** How the slots of the even list `a` and the odd list `b` at one byte
      relate: a shared chroma byte is the same chroma in both, and the byte
      one pixel ignores is the other pixel's luma. */
  predicate SlotPartners(a: YUVComponent, b: YUVComponent) {
    (a == U <==> b == U) && (a == V <==> b == V) && (a == Ignore <==> b == Y) && (b == Ignore <==> a == Y)
  }

  /** The shape every table has: two lists, each holding every component
      once, partnered slot by slot. */
  predicate TableShape(table: seq<ComponentList>) {
    |table| == 2 &&
    Once(table[0], Y) && Once(table[0], U) && Once(table[0], V) && Once(table[0], Ignore) &&
    Once(table[1], Y) && Once(table[1], U) && Once(table[1], V) && Once(table[1], Ignore) &&
    SlotPartners(table[0][0], table[1][0]) && SlotPartners(table[0][1], table[1][1]) &&
    SlotPartners(table[0][2], table[1][2]) && SlotPartners(table[0][3], table[1][3])
  }

  /** The two component lists of a tag: for even pixels (index 0) and for
      odd pixels (index 1). */
  function DecodeComponentOrder(fourcc: string): (table: seq<ComponentList>)
    ensures TableShape(table)
    ensures table[0][0] == (if fourcc == "UYVY" then U else if fourcc == "VYUY" then V else Y)
    ensures table[0][1] == U <==> fourcc !in NamedTags
  {
    match fourcc
    case "YVYU" => [[Y, V, Ignore, U], [Ignore, V, Y, U]]
    case "UYVY" => [[U, Y, V, Ignore], [U, Ignore, V, Y]]
    case "VYUY" => [[V, Y, U, Ignore], [V, Ignore, U, Y]]
    case _ => [[Y, U, Ignore, V], [Ignore, U, Y, V]]
  }

  /** Whether every byte `list` reads or writes, from `start` on, lies below `len`. */
  predicate SlotsBelow(len: nat, start: nat, list: ComponentList) {
    forall i :: 0 <= i < 4 && list[i] != Ignore ==> start + i < len
  }

  /** The byte under the last slot of `list[..n]` that holds `c`, or 0. */
  function Pick(bytes: seq<Byte>, start: nat, list: ComponentList, n: nat, c: YUVComponent): Byte
    requires n <= 4 && SlotsBelow(|bytes|, start, list)
  {
    if n == 0 then 0
    else if list[n - 1] == c && c != Ignore then bytes[start + n - 1]
    else Pick(bytes, start, list, n - 1, c)
  }

  /** The colour a read of the macropixel at `start` through `list` produces. */
  function ReadColor(bytes: seq<Byte>, start: nat, list: ComponentList): YCbCrColor
    requires SlotsBelow(|bytes|, start, list)
  {
    YCbCrColor(Pick(bytes, start, list, 4, Y), Pick(bytes, start, list, 4, U), Pick(bytes, start, list, 4, V))
  }

  /** The new value of byte `b` under a slot holding `c`. */
  function WriteSlot(b: Byte, c: YUVComponent, color: YCbCrColor): Byte {
    match c
    case Y => color.y
    case U => Average(b, color.cb)
    case V => Average(b, color.cr)
    case Ignore => b
  }

  /** The store after writing `color` through `list` into the macropixel at
      `start`: the luma slot is overwritten, the chroma slots are averaged
      with the incoming chroma, every other byte stays. */
  function WriteColor(bytes: seq<Byte>, start: nat, list: ComponentList, color: YCbCrColor): (r: seq<Byte>)
    ensures |r| == |bytes|
  {
    seq(|bytes|, k requires 0 <= k < |bytes| =>
      if start <= k < start + 4 then WriteSlot(bytes[k], list[k - start], color) else bytes[k])
  }

  /** A component held by slot `i` alone is read from byte `start + i`. */
  lemma PickOnce(bytes: seq<Byte>, start: nat, list: ComponentList, c: YUVComponent, i: nat)
    requires SlotsBelow(|bytes|, start, list) && c != Ignore
    requires i < 4 && list[i] == c && Once(list, c)
    ensures Pick(bytes, start, list, 4, c) == bytes[start + i]
  {
    var n := 4;
    while n > i + 1
      invariant i + 1 <= n <= 4
      invariant Pick(bytes, start, list, 4, c) == Pick(bytes, start, list, n, c)
    {
      n := n - 1;
    }
  }

  /** The slot of `c` in a list where it occurs once. */
  function SlotOf(list: ComponentList, c: YUVComponent): (i: nat)
    requires Once(list, c)
    ensures i < 4 && list[i] == c
  {
    if list[0] == c then 0 else if list[1] == c then 1 else if list[2] == c then 2 else 3
  }

  /** Byte offset of the macropixel holding pixel (x, y). */
  function MacroStart(x: nat, y: nat, stride: nat): (start: nat)
    ensures start == (x / 2) * 4 + y * stride
  {
    x * 2 + y * stride - (x % 2) * 2
  }

  /** The two pixels of a macropixel read the same chroma. */
  lemma SharedChroma(fourcc: string, bytes: seq<Byte>, start: nat)
    requires var t := DecodeComponentOrder(fourcc);
      SlotsBelow(|bytes|, start, t[0]) && SlotsBelow(|bytes|, start, t[1])
    ensures var t := DecodeComponentOrder(fourcc);
      ReadColor(bytes, start, t[0]).cb == ReadColor(bytes, start, t[1]).cb &&
      ReadColor(bytes, start, t[0]).cr == ReadColor(bytes, start, t[1]).cr
  {
    var t := DecodeComponentOrder(fourcc);
    var u, v := SlotOf(t[0], U), SlotOf(t[0], V);
    PickOnce(bytes, start, t[0], U, u);
    PickOnce(bytes, start, t[1], U, u);
    PickOnce(bytes, start, t[0], V, v);
    PickOnce(bytes, start, t[1], V, v);
  }

  /** A read after a write at the same pixel returns the written luma and the
      averages of the old chroma with the written chroma. */
  lemma SetThenGet(fourcc: string, bytes: seq<Byte>, start: nat, parity: nat, color: YCbCrColor)
    requires parity < 2
    requires SlotsBelow(|bytes|, start, DecodeComponentOrder(fourcc)[parity])
    ensures var list := DecodeComponentOrder(fourcc)[parity];
      var old_ := ReadColor(bytes, start, list);
      ReadColor(WriteColor(bytes, start, list, color), start, list) ==
        YCbCrColor(color.y, Average(old_.cb, color.cb), Average(old_.cr, color.cr))
  {
    var list := DecodeComponentOrder(fourcc)[parity];
    var after := WriteColor(bytes, start, list, color);
    var y, u, v := SlotOf(list, Y), SlotOf(list, U), SlotOf(list, V);
    PickOnce(bytes, start, list, Y, y);
    PickOnce(bytes, start, list, U, u);
    PickOnce(bytes, start, list, V, v);
    PickOnce(after, start, list, Y, y);
    PickOnce(after, start, list, U, u);
    PickOnce(after, start, list, V, v);
  }

  /** A write never changes the luma byte of the other pixel of the
      macropixel. */
  lemma SetKeepsPartnerLuma(fourcc: string, bytes: seq<Byte>, start: nat, parity: nat, color: YCbCrColor)
    requires parity < 2
    requires SlotsBelow(|bytes|, start, DecodeComponentOrder(fourcc)[parity])
    requires SlotsBelow(|bytes|, start, DecodeComponentOrder(fourcc)[1 - parity])
    ensures var t := DecodeComponentOrder(fourcc);
      ReadColor(WriteColor(bytes, start, t[parity], color), start, t[1 - parity]).y ==
        ReadColor(bytes, start, t[1 - parity]).y
  {
    var t := DecodeComponentOrder(fourcc);
    var after := WriteColor(bytes, start, t[parity], color);
    var y := SlotOf(t[1 - parity], Y);
    PickOnce(bytes, start, t[1 - parity], Y, y);
    PickOnce(after, start, t[1 - parity], Y, y);
  }

  /** The macropixel `new_with_background` repeats: for each slot of the even
      list, the luma for Y and Ignore, the chroma for U and V. */
  function Representation(color: YCbCrColor, list: ComponentList): (s: seq<Byte>)
    ensures |s| == 4
  {
    seq(4, i requires 0 <= i < 4 =>
      match list[i]
      case Y => color.y
      case Ignore => color.y
      case U => color.cb
      case V => color.cr)
  }

  /** The store `new_with_background` builds. */
  function BackgroundBytes(color: YCbCrColor, list: ComponentList, width: nat, height: nat, lineWidth: nat): seq<Byte> {
    if lineWidth > width * 2 then Background(Representation(color, list), width / 2, lineWidth - width * 2, height)
    else Repeat(Representation(color, list), width / 2 * height)
  }

  /** A macropixel holding the background representation reads as the fill
      colour through either list of the table. */
  lemma ReadRepresentation(fourcc: string, color: YCbCrColor, parity: nat, bytes: seq<Byte>, start: nat)
    requires parity < 2 && start + 4 <= |bytes|
    requires bytes[start..start + 4] == Representation(color, DecodeComponentOrder(fourcc)[0])
    ensures var list := DecodeComponentOrder(fourcc)[parity];
      SlotsBelow(|bytes|, start, list) && ReadColor(bytes, start, list) == color
  {
    var t := DecodeComponentOrder(fourcc);
    var rep := Representation(color, t[0]);
    var list := t[parity];
    var sy, su, sv := SlotOf(list, Y), SlotOf(list, U), SlotOf(list, V);
    assert bytes[start + sy] == rep[sy] && bytes[start + su] == rep[su] && bytes[start + sv] == rep[sv];
    PickOnce(bytes, start, list, Y, sy);
    PickOnce(bytes, start, list, U, su);
    PickOnce(bytes, start, list, V, sv);
  }

  /** With an even width and a stride holding a whole row, the macropixel of
      every pixel of a background store holds the representation. */
  lemma BackgroundMacropixel(color: YCbCrColor, list: ComponentList, width: nat, height: nat, lineWidth: nat, x: nat, y: nat)
    requires width % 2 == 0 && lineWidth >= width * 2
    requires x < width && y < height
    ensures var bytes := BackgroundBytes(color, list, width, height, lineWidth);
      var start := MacroStart(x, y, lineWidth);
      start + 4 <= |bytes| && bytes[start..start + 4] == Representation(color, list)
  {
    var rep := Representation(color, list);
    assert width * 2 == |rep| * (width / 2);
    if lineWidth <= width * 2 {
      PackedBackground(rep, width / 2, height);
    }
    BackgroundCell(rep, width / 2, lineWidth, height, x / 2, y);
  }

  /** With an even width and a stride holding a whole row, every pixel of a
      background store reads back as the fill colour, for every tag. */
  lemma BackgroundGet(fourcc: string, color: YCbCrColor, width: nat, height: nat, lineWidth: nat, x: nat, y: nat)
    requires width % 2 == 0 && lineWidth >= width * 2
    requires x < width && y < height
    ensures var t := DecodeComponentOrder(fourcc);
      var bytes := BackgroundBytes(color, t[0], width, height, lineWidth);
      SlotsBelow(|bytes|, MacroStart(x, y, lineWidth), t[x % 2]) &&
      ReadColor(bytes, MacroStart(x, y, lineWidth), t[x % 2]) == color
  {
    var t := DecodeComponentOrder(fourcc);
    BackgroundMacropixel(color, t[0], width, height, lineWidth, x, y);
    var bytes := BackgroundBytes(color, t[0], width, height, lineWidth);
    ReadRepresentation(fourcc, color, x % 2, bytes, MacroStart(x, y, lineWidth));
  }

  class YUV422iPixelBuffer {
    const width: nat
    const height: nat
    const stride: nat
    const fourcc: string
    const order: seq<ComponentList>
    const data: array<Byte>

    /** The component list of pixel column x. */
    function ListOf(x: nat): ComponentList
      requires |order| == 2
    {
      order[x % 2]
    }

    /** Whether pixel (x, y) can be read and written without leaving the store. */
    predicate Addressable(x: nat, y: nat) {
      |order| == 2 && SlotsBelow(data.Length, MacroStart(x, y, stride), ListOf(x))
    }

    /** The colour pixel (x, y) currently reads as. */
    function StoredColor(x: nat, y: nat): YCbCrColor
      requires Addressable(x, y)
      reads data
    {
      ReadColor(data[..], MacroStart(x, y, stride), ListOf(x))
    }

    /** `new`: default tag "YUV422", default stride `width * 2`, zero store. */
    constructor New(width: nat, height: nat, stride: Option<nat>, fourcc: Option<string>)
      ensures this.width == width && this.height == height
      ensures this.fourcc == fourcc.GetOr("YUV422") && order == DecodeComponentOrder(this.fourcc)
      ensures this.stride == stride.GetOr(width * 2)
      ensures fresh(data) && data[..] == Zeros(this.stride * height)
    {
      var f := fourcc.GetOr("YUV422");
      var lineWidth := stride.GetOr(width * 2);
      this.width := width;
      this.height := height;
      this.stride := lineWidth;
      this.fourcc := f;
      this.order := DecodeComponentOrder(f);
      data := new Byte[lineWidth * height](_ => 0);
    }

    /** Takes over `bytes` as the store. */
    constructor Adopt(width: nat, height: nat, stride: nat, fourcc: string, bytes: seq<Byte>)
      ensures this.width == width && this.height == height && this.stride == stride
      ensures this.fourcc == fourcc && this.order == DecodeComponentOrder(fourcc)
      ensures fresh(data) && data[..] == bytes
    {
      this.width := width;
      this.height := height;
      this.stride := stride;
      this.fourcc := fourcc;
      this.order := DecodeComponentOrder(fourcc);
      data := new Byte[|bytes|](i requires 0 <= i < |bytes| => bytes[i]);
    }

    /** `new_with_data`: checks the size against a default stride of
        `width * 2` but stores a default stride of `width * 3`. */
    static method NewWithData(width: nat, height: nat, bytes: seq<Byte>, stride: Option<nat>, fourcc: Option<string>)
      returns (r: Result<YUV422iPixelBuffer>)
      ensures r.Err? <==> |bytes| < stride.GetOr(width * 2) * height
      ensures r.Err? ==> r.error == BufferTooSmall
      ensures r.Ok? ==>
        var b := r.value;
        fresh(b) && fresh(b.data) && b.width == width && b.height == height &&
        b.fourcc == fourcc.GetOr("YUV422") && b.order == DecodeComponentOrder(b.fourcc) &&
        b.stride == stride.GetOr(width * 3) && b.data[..] == bytes
    {
      if |bytes| < stride.GetOr(width * 2) * height {
        return Err(BufferTooSmall);
      }
      var f := fourcc.GetOr("YUV422");
      var b := new YUV422iPixelBuffer.Adopt(width, height, stride.GetOr(width * 3), f, bytes);
      return Ok(b);
    }

    /** `new_with_background`: default tag "RGB" (which decodes to the YUYV
        table); the even list's macropixel repeated `width / 2` times per
        row, zero padding up to the stride. */
    constructor WithBackground(width: nat, height: nat, color: YCbCrColor, stride: Option<nat>, fourcc: Option<string>)
      ensures this.width == width && this.height == height
      ensures this.fourcc == fourcc.GetOr("RGB") && order == DecodeComponentOrder(this.fourcc)
      ensures this.stride == stride.GetOr(width * 2)
      ensures fresh(data) && data[..] == BackgroundBytes(color, order[0], width, height, this.stride)
    {
      var f := fourcc.GetOr("RGB");
      var componentOrder := DecodeComponentOrder(f);
      var lineWidth := stride.GetOr(width * 2);
      var representation: seq<Byte> := [0, 0, 0, 0];
      for i := 0 to 4
        invariant |representation| == 4
        invariant forall k :: 0 <= k < i ==> representation[k] == Representation(color, componentOrder[0])[k]
      {
        representation := representation[i :=
          match componentOrder[0][i]
          case Y => color.y
          case Ignore => color.y
          case U => color.cb
          case V => color.cr];
      }
      assert representation == Representation(color, componentOrder[0]);
      var bytes: seq<Byte>;
      if lineWidth > width * 2 {
        var line := Repeat(representation, width / 2) + Zeros(lineWidth - width * 2);
        bytes := Repeat(line, height);
        assert bytes == Background(representation, width / 2, lineWidth - width * 2, height);
      } else {
        bytes := Repeat(representation, width / 2 * height);
      }
      this.width := width;
      this.height := height;
      this.stride := lineWidth;
      this.fourcc := f;
      this.order := componentOrder;
      data := new Byte[|bytes|](i requires 0 <= i < |bytes| => bytes[i]);
    }

    /** `set_pixel`: fails on (x, y) outside the width-by-width square;
        otherwise overwrites the pixel's luma byte and averages the shared
        chroma bytes with the incoming chroma. */
    method SetPixel(x: nat, y: nat, color: YCbCrColor) returns (r: Result<()>)
      requires |order| == 2
      requires !OutOfBounds(x, y, width) ==> Addressable(x, y)
      modifies data
      ensures r.Err? <==> OutOfBounds(x, y, width)
      ensures r.Err? ==> r.error == RequestOutOfBounds && data[..] == old(data[..])
      ensures r.Ok? ==> data[..] == WriteColor(old(data[..]), MacroStart(x, y, stride), ListOf(x), color)
    {
      if x >= width || y >= width {
        return Err(RequestOutOfBounds);
      }
      var start := x * 2 + y * stride - (x % 2) * 2;
      var list := order[x % 2];
      for i := 0 to 4
        invariant forall k :: 0 <= k < data.Length ==>
          data[k] == if start <= k < start + i then WriteSlot(old(data[k]), list[k - start], color) else old(data[k])
      {
        if list[i] != Ignore {
          data[start + i] := WriteSlot(data[start + i], list[i], color);
        }
      }
      assert data[..] == WriteColor(old(data[..]), start, list, color);
      return Ok(());
    }

    /** `get_pixel`: fails on (x, y) outside the width-by-width square;
        otherwise reads luma and chroma through the pixel's component list. */
    method GetPixel(x: nat, y: nat) returns (r: Result<YCbCrColor>)
      requires |order| == 2
      requires !OutOfBounds(x, y, width) ==> Addressable(x, y)
      ensures r.Err? <==> OutOfBounds(x, y, width)
      ensures r.Err? ==> r.error == RequestOutOfBounds
      ensures r.Ok? ==> r.value == StoredColor(x, y)
    {
      if x >= width || y >= width {
        return Err(RequestOutOfBounds);
      }
      var start := x * 2 + y * stride - (x % 2) * 2;
      var luma, u, v := 0, 0, 0;
      var list := order[x % 2];
      for i := 0 to 4
        invariant luma == Pick(data[..], start, list, i, Y)
        invariant u == Pick(data[..], start, list, i, U)
        invariant v == Pick(data[..], start, list, i, V)
      {
        match list[i]
        case Y => luma := data[start + i];
        case U => u := data[start + i];
        case V => v := data[start + i];
        case Ignore =>
      }
      return Ok(YCbCrColor(luma, u, v));
    }
  }
}
