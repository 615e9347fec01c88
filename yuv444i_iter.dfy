/** The iterator of the 4:4:4 interleaved buffer. The buffer itself is not
    part of this model: its `get_pixel` is a parameter of the iterator. */
module YUV444iIter {
  import opened Pixels
  import opened RowMajor

  /** The iterator over an owned 4:4:4 interleaved buffer. */
  class YUV444iPixelIterator {
    const width: nat
    const height: nat
    /** The buffer's `get_pixel`. */
    const getPixel: (nat, nat) -> Result<YCbCrColor>
    var x: nat
    var y: nat

    /** Whether `next` can read pixel (x, y) without a panic. */
    predicate Readable(x: nat, y: nat) {
      getPixel(x, y).Ok?
    }

    /** The colour `next` reports for pixel (x, y). */
    function ColorAt(x: nat, y: nat): YCbCrColor
      requires Readable(x, y)
    {
      getPixel(x, y).value
    }

    /** `into_iter`: takes over the buffer and starts at (0, 0). */
    constructor IntoIter(width: nat, height: nat, getPixel: (nat, nat) -> Result<YCbCrColor>)
      ensures this.width == width && this.height == height && this.getPixel == getPixel
      ensures x == 0 && y == 0
    {
      this.width, this.height, this.getPixel := width, height, getPixel;
      x, y := 0, 0;
    }

    /** `count`: `width * height`, the number of items `next` yields from
        (0, 0) whenever the width is not zero. */
    function Count(): (n: nat)
      ensures width > 0 ==> n == |Positions(width, height, 0, 0)|
      ensures width == 0 ==> n == 0 && |Positions(width, height, 0, 0)| == height
    {
      Traversal(width, height);
      width * height
    }

    /** `next`: nothing once y reaches the height; otherwise the colour at
        (x, y), reported with the coordinates after the step. */
    method Next() returns (r: Option<Pixel<YCbCrColor>>)
      requires y < height ==> Readable(x, y)
      modifies this
      ensures r.None? <==> old(y) >= height
      ensures r.None? ==> x == old(x) && y == old(y)
      ensures r.Some? ==> (x, y) == Advance(old(x), old(y), width)
      ensures r.Some? ==> r.value == Report((old(x), old(y)))
    {
      if y >= height {
        return None;
      }
      var color := getPixel(x, y);
      var item := color.value;
      x := x + 1;
      if x >= width {
        x := 0;
        y := y + 1;
      }
      return Some(Pixel(x, y, item));
    }

    /** Drains the iterator: one item per remaining position, in order. */
    method Collect() returns (items: seq<Pixel<YCbCrColor>>)
      requires forall p :: p in Positions(width, height, x, y) ==> Readable(p.0, p.1)
      modifies this
      ensures y >= height
      ensures items == Reports(old(Positions(width, height, x, y)))
    {
      ghost var P := Positions(width, height, x, y);
      items := [];
      while y < height
        invariant |items| <= |P| && Positions(width, height, x, y) == P[|items|..]
        invariant forall p :: p in P ==> Readable(p.0, p.1)
        invariant items == Reports(P[..|items|])
        decreases |P| - |items|
      {
        ghost var n := |items|;
        PositionsStep(width, height, x, y, P, n);
        assert P[n] in P;
        var item := Next();
        ReportsStep(P, n);
        items := items + [item.value];
      }
      assert P[..|items|] == P;
    }

    /** The item `next` reports when it reads position `p`. */
    function Report(p: (nat, nat)): Pixel<YCbCrColor>
      requires Readable(p.0, p.1)
    {
      var next := Advance(p.0, p.1, width);
      Pixel(next.0, next.1, ColorAt(p.0, p.1))
    }

    /** The items reported for the positions `ps`, in order. */
    function Reports(ps: seq<(nat, nat)>): (items: seq<Pixel<YCbCrColor>>)
      requires forall p :: p in ps ==> Readable(p.0, p.1)
      ensures |items| == |ps|
    {
      if |ps| == 0 then [] else Reports(ps[..|ps| - 1]) + [Report(ps[|ps| - 1])]
    }

    /** Reporting one more position appends its report. */
    lemma ReportsStep(ps: seq<(nat, nat)>, n: nat)
      requires n < |ps| && forall p :: p in ps ==> Readable(p.0, p.1)
      ensures forall p :: p in ps[..n + 1] ==> Readable(p.0, p.1)
      ensures Reports(ps[..n + 1]) == Reports(ps[..n]) + [Report(ps[n])]
    {
      assert ps[..n + 1][..n] == ps[..n];
    }

    /** Item `k` of the reports is the report of position `k`. */
    lemma {:induction false} ReportsAt(ps: seq<(nat, nat)>)
      requires forall p :: p in ps ==> Readable(p.0, p.1)
      ensures forall k :: 0 <= k < |ps| ==> Reports(ps)[k] == Report(ps[k])
    {
      if |ps| > 0 {
        var front := ps[..|ps| - 1];
        ReportsAt(front);
        assert forall k :: 0 <= k < |front| ==> front[k] == ps[k];
      }
    }

    /** Draining from (0, 0) a buffer of non-zero width yields item `k` for
        row-major pixel `k`, reported at position number `k + 1`. */
    lemma CollectedTraversal()
      requires width > 0
      requires forall p :: p in Positions(width, height, 0, 0) ==> Readable(p.0, p.1)
      ensures var items := Reports(Positions(width, height, 0, 0));
        FromTraversal(items, width, height) &&
        forall k :: 0 <= k < |items| ==>
          var p := Pos(width, k); Readable(p.0, p.1) && items[k].color == ColorAt(p.0, p.1)
    {
      var ps := Positions(width, height, 0, 0);
      Traversal(width, height);
      ReportsAt(ps);
      forall k | 0 <= k < |ps|
        ensures Advance(ps[k].0, ps[k].1, width) == Pos(width, k + 1) && Readable(ps[k].0, ps[k].1)
      {
        AdvancePos(width, k);
        assert ps[k] in ps;
      }
    }
  }
}
