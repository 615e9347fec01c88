/** The iterator of the tag-driven grayscale buffer. It reads every pixel
    through `get_pixel` and unwraps the result, so a row at or beyond the
    width stops it with a panic. */
module GrayscaleIter {
  import opened Pixels
  import opened RowMajor
  import opened Grayscale

  /** With a one-byte tag, a background-filled buffer with no more rows than
      columns passes every bounds check of the traversal and reads the fill
      value at every position. */
  lemma BackgroundIteration(fourcc: string, color: GrayscaleColor, width: nat, height: nat, lineWidth: nat)
    requires fourcc !in PaddedTags && lineWidth >= width && 0 < width && height <= width
    ensures var order := DecodeComponentOrder(fourcc);
      |order| == 1 && width * |order| == width &&
      var bytes := BackgroundBytes(color, order, width, height, lineWidth);
      forall p :: p in Positions(width, height, 0, 0) ==>
        !OutOfBounds(p.0, p.1, width) && ValueSlotsBelow(|bytes|, p.0 + p.1 * lineWidth, order) &&
        ReadValue(bytes, p.0 + p.1 * lineWidth, order) == color.v
  {
    var order := DecodeComponentOrder(fourcc);
    assert |order| == 1 && width * |order| == width;
    var bytes := BackgroundBytes(color, order, width, height, lineWidth);
    PositionsInRange(width, height, 0, 0);
    forall p | p in Positions(width, height, 0, 0)
      ensures !OutOfBounds(p.0, p.1, width) && ValueSlotsBelow(|bytes|, p.0 + p.1 * lineWidth, order) &&
        ReadValue(bytes, p.0 + p.1 * lineWidth, order) == color.v
    {
      assert p.0 < width && p.1 < height;
      BackgroundPixel(fourcc, color, width, height, lineWidth, p.0, p.1);
    }
  }

  /** One pixel of `BackgroundIteration`. */
  lemma BackgroundPixel(fourcc: string, color: GrayscaleColor, width: nat, height: nat, lineWidth: nat, x: nat, y: nat)
    requires fourcc !in PaddedTags && lineWidth >= width && height <= width
    requires x < width && y < height
    ensures var order := DecodeComponentOrder(fourcc);
      var bytes := BackgroundBytes(color, order, width, height, lineWidth);
      !OutOfBounds(x, y, width) && ValueSlotsBelow(|bytes|, x + y * lineWidth, order) &&
      ReadValue(bytes, x + y * lineWidth, order) == color.v
  {
    BackgroundGet(fourcc, color, width, height, lineWidth, x, y);
  }

  /** The iterator over an owned grayscale buffer. */
  class GrayscalePixelIterator {
    const base: GrayscalePixelBuffer
    var x: nat
    var y: nat

    /** Whether `next` can read pixel (x, y) without a panic. */
    predicate Readable(x: nat, y: nat) {
      !OutOfBounds(x, y, base.width) && ValueSlotsBelow(base.data.Length, base.ReadStart(x, y), base.order)
    }

    /** The colour `next` reports for pixel (x, y). */
    function ColorAt(x: nat, y: nat): GrayscaleColor
      requires Readable(x, y)
      reads base.data
    {
      base.StoredColor(x, y)
    }

    /** `into_iter`: takes over the buffer and starts at (0, 0). */
    constructor IntoIter(base: GrayscalePixelBuffer)
      ensures this.base == base && x == 0 && y == 0
    {
      this.base := base;
      x, y := 0, 0;
    }

    /** `count`: `width * height`, the number of items `next` yields from
        (0, 0) whenever the width is not zero. */
    function Count(): (n: nat)
      ensures base.width > 0 ==> n == |Positions(base.width, base.height, 0, 0)|
      ensures base.width == 0 ==> n == 0 && |Positions(base.width, base.height, 0, 0)| == base.height
    {
      Traversal(base.width, base.height);
      base.width * base.height
    }

    /** `next`: nothing once y reaches the height; otherwise the colour at
        (x, y), reported with the coordinates after the step. */
    method Next() returns (r: Option<Pixel<GrayscaleColor>>)
      requires y < base.height ==> Readable(x, y)
      modifies this
      ensures r.None? <==> old(y) >= base.height
      ensures r.None? ==> x == old(x) && y == old(y)
      ensures r.Some? ==> (x, y) == Advance(old(x), old(y), base.width)
      ensures r.Some? ==> r.value == Report((old(x), old(y)))
    {
      if y >= base.height {
        return None;
      }
      var color := base.GetPixel(x, y);
      var item := color.value;
      x := x + 1;
      if x >= base.width {
        x := 0;
        y := y + 1;
      }
      return Some(Pixel(x, y, item));
    }

    /** Drains the iterator: one item per remaining position, in order. */
    method Collect() returns (items: seq<Pixel<GrayscaleColor>>)
      requires forall p :: p in Positions(base.width, base.height, x, y) ==> Readable(p.0, p.1)
      modifies this
      ensures y >= base.height
      ensures items == Reports(old(Positions(base.width, base.height, x, y)))
    {
      ghost var P := Positions(base.width, base.height, x, y);
      items := [];
      while y < base.height
        invariant |items| <= |P| && Positions(base.width, base.height, x, y) == P[|items|..]
        invariant forall p :: p in P ==> Readable(p.0, p.1)
        invariant items == Reports(P[..|items|])
        decreases |P| - |items|
      {
        ghost var n := |items|;
        PositionsStep(base.width, base.height, x, y, P, n);
        assert P[n] in P;
        var item := Next();
        ReportsStep(P, n);
        items := items + [item.value];
      }
      assert P[..|items|] == P;
    }

    /** The item `next` reports when it reads position `p`. */
    function Report(p: (nat, nat)): Pixel<GrayscaleColor>
      requires Readable(p.0, p.1)
      reads base.data
    {
      var next := Advance(p.0, p.1, base.width);
      Pixel(next.0, next.1, ColorAt(p.0, p.1))
    }

    /** The items reported for the positions `ps`, in order. */
    function Reports(ps: seq<(nat, nat)>): (items: seq<Pixel<GrayscaleColor>>)
      requires forall p :: p in ps ==> Readable(p.0, p.1)
      reads base.data
      ensures |items| == |ps|
    {
      if |ps| == 0 then [] else Reports(ps[..|ps| - 1]) + [Report(ps[|ps| - 1])]
    }

    /** Reporting one more position appends its report. */
    lemma ReportsStep(ps: seq<(nat, nat)>, n: nat)
      requires n < |ps| && forall p :: p in ps ==> Readable(p.0, p.1)
      ensures forall p :: p in ps[..n + 1] ==> Readable(p.0, p.1)
      ensures Reports(ps[..n + 1]) == Reports(ps[..n]) + [Report(ps[n])]
    {
      assert ps[..n + 1][..n] == ps[..n];
    }

    /** Item `k` of the reports is the report of position `k`. */
    lemma {:induction false} ReportsAt(ps: seq<(nat, nat)>)
      requires forall p :: p in ps ==> Readable(p.0, p.1)
      ensures forall k :: 0 <= k < |ps| ==> Reports(ps)[k] == Report(ps[k])
    {
      if |ps| > 0 {
        var front := ps[..|ps| - 1];
        ReportsAt(front);
        assert forall k :: 0 <= k < |front| ==> front[k] == ps[k];
      }
    }

    /** Draining from (0, 0) a buffer of non-zero width yields item `k` for
        row-major pixel `k`, reported at position number `k + 1`. */
    lemma CollectedTraversal()
      requires base.width > 0
      requires forall p :: p in Positions(base.width, base.height, 0, 0) ==> Readable(p.0, p.1)
      ensures var items := Reports(Positions(base.width, base.height, 0, 0));
        FromTraversal(items, base.width, base.height) &&
        forall k :: 0 <= k < |items| ==>
          var p := Pos(base.width, k); Readable(p.0, p.1) && items[k].color == ColorAt(p.0, p.1)
    {
      var ps := Positions(base.width, base.height, 0, 0);
      Traversal(base.width, base.height);
      ReportsAt(ps);
      forall k | 0 <= k < |ps|
        ensures Advance(ps[k].0, ps[k].1, base.width) == Pos(base.width, k + 1) && Readable(ps[k].0, ps[k].1)
      {
        AdvancePos(base.width, k);
        assert ps[k] in ps;
      }
    }
  }
}
