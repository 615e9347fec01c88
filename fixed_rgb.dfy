/** The fixed-layout RGB buffer: three bytes r, g, b per pixel, rows `stride`
    bytes apart, together with its own row-major iterator. */
module FixedRGB {
  import opened Pixels
  import opened RowMajor

  /** Byte offset of pixel (x, y). */
  function PixelStart(x: nat, y: nat, stride: nat): nat {
    x * 3 + y * stride
  }

  /** The colour held by the three bytes from `start` on. */
  function ReadPixel(bytes: seq<Byte>, start: nat): RGBColor
    requires start + 3 <= |bytes|
  {
    RGBFromBytes(bytes[start..start + 3])
  }

  /** The store `new_with_background` builds: one [r, g, b] per pixel, rows
      padded with zeros when the line width exceeds `width * 3`. */
  function BackgroundBytes(color: RGBColor, width: nat, height: nat, lineWidth: nat): seq<Byte> {
    if lineWidth > width * 3 then Background(color.Bytes(), width, lineWidth - width * 3, height)
    else Repeat(color.Bytes(), width * height)
  }

  /** A pixel written at `start` reads back as the written colour. */
  lemma SetThenGet(bytes: seq<Byte>, start: nat, color: RGBColor)
    requires start + 3 <= |bytes|
    ensures ReadPixel(Overwrite(bytes, start, color.Bytes()), start) == color
  {
    OverwriteRead(bytes, start, color.Bytes());
  }

  /** Writing one pixel leaves the colour of every other pixel as it was. */
  lemma SetLeavesOthers(bytes: seq<Byte>, width: nat, stride: nat, x: nat, y: nat, x': nat, y': nat, color: RGBColor)
    requires x < width && x' < width && stride >= width * 3 && (x, y) != (x', y')
    requires PixelStart(x, y, stride) + 3 <= |bytes| && PixelStart(x', y', stride) + 3 <= |bytes|
    ensures ReadPixel(Overwrite(bytes, PixelStart(x, y, stride), color.Bytes()), PixelStart(x', y', stride)) ==
            ReadPixel(bytes, PixelStart(x', y', stride))
  {
    assert width * 3 == width * |color.Bytes()|;
    CellsDisjoint(3, stride, width, x, y, x', y');
    var other := PixelStart(x', y', stride);
    OverwriteElsewhere(bytes, PixelStart(x, y, stride), color.Bytes(), other, other + 3);
  }

  /** Every pixel of a background store reads back as the fill colour when
      the line width holds a whole row. */
  lemma BackgroundGet(color: RGBColor, width: nat, height: nat, lineWidth: nat, x: nat, y: nat)
    requires lineWidth >= width * 3 && x < width && y < height
    ensures var bytes := BackgroundBytes(color, width, height, lineWidth);
      |bytes| == lineWidth * height &&
      PixelStart(x, y, lineWidth) + 3 <= |bytes| && ReadPixel(bytes, PixelStart(x, y, lineWidth)) == color
  {
    var rep := color.Bytes();
    assert width * 3 == |rep| * width;
    if lineWidth <= width * 3 {
      PackedBackground(rep, width, height);
    }
    BackgroundCell(rep, width, lineWidth, height, x, y);
  }

  /** Iterating a background-filled buffer of non-zero width reads the fill
      colour at every position the traversal visits. */
  lemma BackgroundIteration(color: RGBColor, width: nat, height: nat, lineWidth: nat)
    requires width > 0 && lineWidth >= width * 3
    ensures var bytes := BackgroundBytes(color, width, height, lineWidth);
      forall p :: p in Positions(width, height, 0, 0) ==>
        PixelStart(p.0, p.1, lineWidth) + 3 <= |bytes| && ReadPixel(bytes, PixelStart(p.0, p.1, lineWidth)) == color
  {
    PositionsInRange(width, height, 0, 0);
    forall p | p in Positions(width, height, 0, 0)
      ensures var bytes := BackgroundBytes(color, width, height, lineWidth);
        PixelStart(p.0, p.1, lineWidth) + 3 <= |bytes| && ReadPixel(bytes, PixelStart(p.0, p.1, lineWidth)) == color
    {
      BackgroundGet(color, width, height, lineWidth, p.0, p.1);
    }
  }

  class RGBPixelBuffer {
    const width: nat
    const height: nat
    const stride: nat
    const data: array<Byte>

    /** Byte offset of pixel (x, y). */
    function Start(x: nat, y: nat): nat {
      PixelStart(x, y, stride)
    }

    /** Whether the bytes of pixel (x, y) lie inside the store. */
    predicate Addressable(x: nat, y: nat) {
      Start(x, y) + 3 <= data.Length
    }

    /** The colour pixel (x, y) currently reads as. */
    function StoredColor(x: nat, y: nat): RGBColor
      requires Addressable(x, y)
      reads data
    {
      ReadPixel(data[..], Start(x, y))
    }

    /** `new`: a zero-filled store of `stride * height` bytes. */
    constructor New(width: nat, height: nat, stride: Option<nat>)
      ensures this.width == width && this.height == height && this.stride == stride.GetOr(width * 3)
      ensures fresh(data) && data[..] == Zeros(this.stride * height)
    {
      var lineWidth := stride.GetOr(width * 3);
      this.width := width;
      this.height := height;
      this.stride := lineWidth;
      data := new Byte[lineWidth * height](_ => 0);
    }

    /** Takes over `bytes` as the store. */
    constructor Adopt(width: nat, height: nat, stride: nat, bytes: seq<Byte>)
      ensures this.width == width && this.height == height && this.stride == stride
      ensures fresh(data) && data[..] == bytes
    {
      this.width := width;
      this.height := height;
      this.stride := stride;
      data := new Byte[|bytes|](i requires 0 <= i < |bytes| => bytes[i]);
    }

    /** `new_with_data`: keeps `bytes` unchanged, or fails when they are
        fewer than `stride * height`. */
    static method NewWithData(width: nat, height: nat, stride: Option<nat>, bytes: seq<Byte>)
      returns (r: Result<RGBPixelBuffer>)
      ensures r.Err? <==> |bytes| < stride.GetOr(width * 3) * height
      ensures r.Err? ==> r.error == BufferTooSmall
      ensures r.Ok? ==>
        var b := r.value;
        fresh(b) && fresh(b.data) && b.width == width && b.height == height &&
        b.stride == stride.GetOr(width * 3) && b.data[..] == bytes
    {
      if |bytes| < stride.GetOr(width * 3) * height {
        return Err(BufferTooSmall);
      }
      var b := new RGBPixelBuffer.Adopt(width, height, stride.GetOr(width * 3), bytes);
      return Ok(b);
    }

    /** `new_with_background`: every pixel holds `color`. */
    constructor WithBackground(width: nat, height: nat, stride: Option<nat>, color: RGBColor)
      ensures this.width == width && this.height == height && this.stride == stride.GetOr(width * 3)
      ensures fresh(data) && data[..] == BackgroundBytes(color, width, height, this.stride)
    {
      var lineWidth := stride.GetOr(width * 3);
      var representation := color.Bytes();
      var bytes: seq<Byte>;
      if lineWidth > width * 3 {
        var line := Repeat(representation, width) + Zeros(lineWidth - width * 3);
        bytes := Repeat(line, height);
      } else {
        bytes := Repeat(representation, width * height);
      }
      this.width := width;
      this.height := height;
      this.stride := lineWidth;
      data := new Byte[|bytes|](i requires 0 <= i < |bytes| => bytes[i]);
    }

    /** `set_pixel`: fails on (x, y) outside the width-by-width square;
        otherwise writes r, g, b over the pixel's three bytes. */
    method SetPixel(x: nat, y: nat, color: RGBColor) returns (r: Result<()>)
      requires !OutOfBounds(x, y, width) ==> Addressable(x, y)
      modifies data
      ensures r.Err? <==> OutOfBounds(x, y, width)
      ensures r.Err? ==> r.error == RequestOutOfBounds && data[..] == old(data[..])
      ensures r.Ok? ==> data[..] == Overwrite(old(data[..]), Start(x, y), color.Bytes())
    {
      if x >= width || y >= width {
        return Err(RequestOutOfBounds);
      }
      var start := x * 3 + y * stride;
      var repr := color.Bytes();
      data[start + 0] := repr[0];
      data[start + 1] := repr[1];
      data[start + 2] := repr[2];
      assert data[..] == Overwrite(old(data[..]), start, repr);
      return Ok(());
    }

    /** `get_pixel`: fails on (x, y) outside the width-by-width square;
        otherwise reads the pixel's three bytes. */
    method GetPixel(x: nat, y: nat) returns (r: Result<RGBColor>)
      requires !OutOfBounds(x, y, width) ==> Addressable(x, y)
      ensures r.Err? <==> OutOfBounds(x, y, width)
      ensures r.Err? ==> r.error == RequestOutOfBounds
      ensures r.Ok? ==> r.value == StoredColor(x, y)
    {
      if x >= width || y >= width {
        return Err(RequestOutOfBounds);
      }
      var start := x * 3 + y * stride;
      var slice := data[start..start + 3];
      return Ok(RGBFromBytes(slice));
    }
  }

  /** The iterator over an owned RGB buffer. */
  class RGBPixelIterator {
    const base: RGBPixelBuffer
    var x: nat
    var y: nat

    /** Whether `next` can read pixel (x, y) without an index panic. */
    predicate Readable(x: nat, y: nat) {
      base.Addressable(x, y)
    }

    /** The colour `next` reports for pixel (x, y). */
    function ColorAt(x: nat, y: nat): RGBColor
      requires Readable(x, y)
      reads base.data
    {
      base.StoredColor(x, y)
    }

    /** `into_iter`: starts at (0, 0). */
    constructor IntoIter(base: RGBPixelBuffer)
      ensures this.base == base && x == 0 && y == 0
    {
      this.base := base;
      x, y := 0, 0;
    }

    /** `count`: `width * height`, the number of items `next` yields from
        (0, 0) whenever the width is not zero. */
    function Count(): (n: nat)
      ensures base.width > 0 ==> n == |Positions(base.width, base.height, 0, 0)|
      ensures base.width == 0 ==> n == 0 && |Positions(base.width, base.height, 0, 0)| == base.height
    {
      Traversal(base.width, base.height);
      base.width * base.height
    }

    /** `next`: nothing once y reaches the height; otherwise the colour at
        (x, y), reported with the coordinates after the step. */
    method Next() returns (r: Option<Pixel<RGBColor>>)
      requires y < base.height ==> Readable(x, y)
      modifies this
      ensures r.None? <==> old(y) >= base.height
      ensures r.None? ==> x == old(x) && y == old(y)
      ensures r.Some? ==> (x, y) == Advance(old(x), old(y), base.width)
      ensures r.Some? ==> r.value == Report((old(x), old(y)))
    {
      if y >= base.height {
        return None;
      }
      var start := x * 3 + y * base.stride;
      var slice := base.data[start..start + 3];
      var item := RGBFromBytes(slice);
      x := x + 1;
      if x >= base.width {
        x := 0;
        y := y + 1;
      }
      return Some(Pixel(x, y, item));
    }

    /** Drains the iterator: one item per remaining position, in order. */
    method Collect() returns (items: seq<Pixel<RGBColor>>)
      requires forall p :: p in Positions(base.width, base.height, x, y) ==> Readable(p.0, p.1)
      modifies this
      ensures y >= base.height
      ensures items == Reports(old(Positions(base.width, base.height, x, y)))
    {
      ghost var P := Positions(base.width, base.height, x, y);
      items := [];
      while y < base.height
        invariant |items| <= |P| && Positions(base.width, base.height, x, y) == P[|items|..]
        invariant forall p :: p in P ==> Readable(p.0, p.1)
        invariant items == Reports(P[..|items|])
        decreases |P| - |items|
      {
        ghost var n := |items|;
        PositionsStep(base.width, base.height, x, y, P, n);
        assert P[n] in P;
        var item := Next();
        ReportsStep(P, n);
        items := items + [item.value];
      }
      assert P[..|items|] == P;
    }

    /** The item `next` reports when it reads position `p`. */
    function Report(p: (nat, nat)): Pixel<RGBColor>
      requires Readable(p.0, p.1)
      reads base.data
    {
      var next := Advance(p.0, p.1, base.width);
      Pixel(next.0, next.1, ColorAt(p.0, p.1))
    }

    /** The items reported for the positions `ps`, in order. */
    function Reports(ps: seq<(nat, nat)>): (items: seq<Pixel<RGBColor>>)
      requires forall p :: p in ps ==> Readable(p.0, p.1)
      reads base.data
      ensures |items| == |ps|
    {
      if |ps| == 0 then [] else Reports(ps[..|ps| - 1]) + [Report(ps[|ps| - 1])]
    }

    /** Reporting one more position appends its report. */
    lemma ReportsStep(ps: seq<(nat, nat)>, n: nat)
      requires n < |ps| && forall p :: p in ps ==> Readable(p.0, p.1)
      ensures forall p :: p in ps[..n + 1] ==> Readable(p.0, p.1)
      ensures Reports(ps[..n + 1]) == Reports(ps[..n]) + [Report(ps[n])]
    {
      assert ps[..n + 1][..n] == ps[..n];
    }

    /** Item `k` of the reports is the report of position `k`. */
    lemma {:induction false} ReportsAt(ps: seq<(nat, nat)>)
      requires forall p :: p in ps ==> Readable(p.0, p.1)
      ensures forall k :: 0 <= k < |ps| ==> Reports(ps)[k] == Report(ps[k])
    {
      if |ps| > 0 {
        var front := ps[..|ps| - 1];
        ReportsAt(front);
        assert forall k :: 0 <= k < |front| ==> front[k] == ps[k];
      }
    }

    /** Draining from (0, 0) a buffer of non-zero width yields item `k` for
        row-major pixel `k`, reported at position number `k + 1`. */
    lemma CollectedTraversal()
      requires base.width > 0
      requires forall p :: p in Positions(base.width, base.height, 0, 0) ==> Readable(p.0, p.1)
      ensures var items := Reports(Positions(base.width, base.height, 0, 0));
        FromTraversal(items, base.width, base.height) &&
        forall k :: 0 <= k < |items| ==>
          var p := Pos(base.width, k); Readable(p.0, p.1) && items[k].color == ColorAt(p.0, p.1)
    {
      var ps := Positions(base.width, base.height, 0, 0);
      Traversal(base.width, base.height);
      ReportsAt(ps);
      forall k | 0 <= k < |ps|
        ensures Advance(ps[k].0, ps[k].1, base.width) == Pos(base.width, k + 1) && Readable(ps[k].0, ps[k].1)
      {
        AdvancePos(base.width, k);
        assert ps[k] in ps;
      }
    }
  }
}
