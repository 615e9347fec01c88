/** The iterator of the tag-driven RGB buffer. It reads three bytes per pixel
    at `x * 3 + y * stride` whatever the tag says. */
module RGBIter {
  import opened Pixels
  import opened RowMajor
  import TaggedRGB
  import FixedRGB

  /** With the default tag the three bytes the iterator reads are the red,
      green and blue `get_pixel` assembles; with "BGR" they come out with red
      and blue exchanged. */
  lemma IteratorAgreesWithGet(bytes: seq<Byte>, start: nat)
    requires start + 3 <= |bytes|
    ensures var c := TaggedRGB.ReadColor(bytes, start, TaggedRGB.DecodeComponentOrder("RGB"));
      FixedRGB.ReadPixel(bytes, start) == RGBColor(c.r, c.g, c.b)
    ensures var c := TaggedRGB.ReadColor(bytes, start, TaggedRGB.DecodeComponentOrder("BGR"));
      FixedRGB.ReadPixel(bytes, start) == RGBColor(c.b, c.g, c.r)
  {
    var s := bytes[start..start + 3];
    var rgb := TaggedRGB.DecodeComponentOrder("RGB");
    var bgr := TaggedRGB.DecodeComponentOrder("BGR");
    assert s[..2][..1] == s[..1] && s[..1][..0] == [];
    assert rgb[..2] == [TaggedRGB.Red, TaggedRGB.Green] && rgb[..2][..1] == [TaggedRGB.Red];
    assert bgr[..2] == [TaggedRGB.Blue, TaggedRGB.Green] && bgr[..2][..1] == [TaggedRGB.Blue];
    assert TaggedRGB.Gather(s[..1], [TaggedRGB.Red]) == [s[0], 0, 0, 255];
    assert TaggedRGB.Gather(s[..2], rgb[..2]) == [s[0], s[1], 0, 255];
    assert TaggedRGB.Gather(s, rgb) == [s[0], s[1], s[2], 255];
    assert TaggedRGB.Gather(s[..1], [TaggedRGB.Blue]) == [0, 0, s[0], 255];
    assert TaggedRGB.Gather(s[..2], bgr[..2]) == [0, s[1], s[0], 255];
    assert TaggedRGB.Gather(s, bgr) == [s[2], s[1], s[0], 255];
  }

  /** Iterating a background-filled buffer with the default tag and a
      non-zero width yields the fill colour at every position. */
  lemma BackgroundIteration(color: RGBAColor, width: nat, height: nat, stride: nat)
    requires width > 0 && stride >= width * 3
    ensures var order := TaggedRGB.DecodeComponentOrder("RGB");
      var bytes := TaggedRGB.BackgroundBytes(color, order, width, height, stride);
      forall p :: p in Positions(width, height, 0, 0) ==>
        FixedRGB.PixelStart(p.0, p.1, stride) + 3 <= |bytes| &&
        FixedRGB.ReadPixel(bytes, FixedRGB.PixelStart(p.0, p.1, stride)) == RGBColor(color.r, color.g, color.b)
  {
    var order := TaggedRGB.DecodeComponentOrder("RGB");
    var bytes := TaggedRGB.BackgroundBytes(color, order, width, height, stride);
    PositionsInRange(width, height, 0, 0);
    forall p | p in Positions(width, height, 0, 0)
      ensures FixedRGB.PixelStart(p.0, p.1, stride) + 3 <= |bytes| &&
        FixedRGB.ReadPixel(bytes, FixedRGB.PixelStart(p.0, p.1, stride)) == RGBColor(color.r, color.g, color.b)
    {
      TaggedRGB.BackgroundColor("RGB", color, width, height, stride, p.0, p.1);
      IteratorAgreesWithGet(bytes, FixedRGB.PixelStart(p.0, p.1, stride));
    }
  }

  /** The iterator over an owned tag-driven RGB buffer. */
  class RGBPixelIterator {
    const base: TaggedRGB.RGBPixelBuffer
    var x: nat
    var y: nat

    /** Whether `next` can read pixel (x, y) without a panic. */
    predicate Readable(x: nat, y: nat) {
      FixedRGB.PixelStart(x, y, base.stride) + 3 <= base.data.Length
    }

    /** The colour `next` reports for pixel (x, y). */
    function ColorAt(x: nat, y: nat): RGBColor
      requires Readable(x, y)
      reads base.data
    {
      FixedRGB.ReadPixel(base.data[..], FixedRGB.PixelStart(x, y, base.stride))
    }

    /** `into_iter`: takes over the buffer and starts at (0, 0). */
    constructor IntoIter(base: TaggedRGB.RGBPixelBuffer)
      ensures this.base == base && x == 0 && y == 0
    {
      this.base := base;
      x, y := 0, 0;
    }

    /** `count`: `width * height`, the number of items `next` yields from
        (0, 0) whenever the width is not zero. */
    function Count(): (n: nat)
      ensures base.width > 0 ==> n == |Positions(base.width, base.height, 0, 0)|
      ensures base.width == 0 ==> n == 0 && |Positions(base.width, base.height, 0, 0)| == base.height
    {
      Traversal(base.width, base.height);
      base.width * base.height
    }

    /** `next`: nothing once y reaches the height; otherwise the colour at
        (x, y), reported with the coordinates after the step. */
    method Next() returns (r: Option<Pixel<RGBColor>>)
      requires y < base.height ==> Readable(x, y)
      modifies this
      ensures r.None? <==> old(y) >= base.height
      ensures r.None? ==> x == old(x) && y == old(y)
      ensures r.Some? ==> (x, y) == Advance(old(x), old(y), base.width)
      ensures r.Some? ==> r.value == Report((old(x), old(y)))
    {
      if y >= base.height {
        return None;
      }
      var start := x * 3 + y * base.stride;
      var slice := base.data[start..start + 3];
      var item := RGBFromBytes(slice);
      x := x + 1;
      if x >= base.width {
        x := 0;
        y := y + 1;
      }
      return Some(Pixel(x, y, item));
    }

    /** Drains the iterator: one item per remaining position, in order. */
    method Collect() returns (items: seq<Pixel<RGBColor>>)
      requires forall p :: p in Positions(base.width, base.height, x, y) ==> Readable(p.0, p.1)
      modifies this
      ensures y >= base.height
      ensures items == Reports(old(Positions(base.width, base.height, x, y)))
    {
      ghost var P := Positions(base.width, base.height, x, y);
      items := [];
      while y < base.height
        invariant |items| <= |P| && Positions(base.width, base.height, x, y) == P[|items|..]
        invariant forall p :: p in P ==> Readable(p.0, p.1)
        invariant items == Reports(P[..|items|])
        decreases |P| - |items|
      {
        ghost var n := |items|;
        PositionsStep(base.width, base.height, x, y, P, n);
        assert P[n] in P;
        var item := Next();
        ReportsStep(P, n);
        items := items + [item.value];
      }
      assert P[..|items|] == P;
    }

    /** The item `next` reports when it reads position `p`. */
    function Report(p: (nat, nat)): Pixel<RGBColor>
      requires Readable(p.0, p.1)
      reads base.data
    {
      var next := Advance(p.0, p.1, base.width);
      Pixel(next.0, next.1, ColorAt(p.0, p.1))
    }

    /** The items reported for the positions `ps`, in order. */
    function Reports(ps: seq<(nat, nat)>): (items: seq<Pixel<RGBColor>>)
      requires forall p :: p in ps ==> Readable(p.0, p.1)
      reads base.data
      ensures |items| == |ps|
    {
      if |ps| == 0 then [] else Reports(ps[..|ps| - 1]) + [Report(ps[|ps| - 1])]
    }

    /** Reporting one more position appends its report. */
    lemma ReportsStep(ps: seq<(nat, nat)>, n: nat)
      requires n < |ps| && forall p :: p in ps ==> Readable(p.0, p.1)
      ensures forall p :: p in ps[..n + 1] ==> Readable(p.0, p.1)
      ensures Reports(ps[..n + 1]) == Reports(ps[..n]) + [Report(ps[n])]
    {
      assert ps[..n + 1][..n] == ps[..n];
    }

    /** Item `k` of the reports is the report of position `k`. */
    lemma {:induction false} ReportsAt(ps: seq<(nat, nat)>)
      requires forall p :: p in ps ==> Readable(p.0, p.1)
      ensures forall k :: 0 <= k < |ps| ==> Reports(ps)[k] == Report(ps[k])
    {
      if |ps| > 0 {
        var front := ps[..|ps| - 1];
        ReportsAt(front);
        assert forall k :: 0 <= k < |front| ==> front[k] == ps[k];
      }
    }

    /** Draining from (0, 0) a buffer of non-zero width yields item `k` for
        row-major pixel `k`, reported at position number `k + 1`. */
    lemma CollectedTraversal()
      requires base.width > 0
      requires forall p :: p in Positions(base.width, base.height, 0, 0) ==> Readable(p.0, p.1)
      ensures var items := Reports(Positions(base.width, base.height, 0, 0));
        FromTraversal(items, base.width, base.height) &&
        forall k :: 0 <= k < |items| ==>
          var p := Pos(base.width, k); Readable(p.0, p.1) && items[k].color == ColorAt(p.0, p.1)
    {
      var ps := Positions(base.width, base.height, 0, 0);
      Traversal(base.width, base.height);
      ReportsAt(ps);
      forall k | 0 <= k < |ps|
        ensures Advance(ps[k].0, ps[k].1, base.width) == Pos(base.width, k + 1) && Readable(ps[k].0, ps[k].1)
      {
        AdvancePos(base.width, k);
        assert ps[k] in ps;
      }
    }
  }
}
