/** The traversal every pixel iterator performs: start at (0, 0), read the
    pixel at the current position, step x, wrap to the next row at the width,
    stop once y reaches the height. */
module RowMajor {
  import opened Pixels

  /** The position after one step from (x, y) in a row of `width` pixels. */
  function Advance(x: nat, y: nat, width: nat): (nat, nat) {
    if x + 1 >= width then (0, y + 1) else (x + 1, y)
  }

  /** The positions an iterator standing at (x, y) reads, in order, before
      it reports exhaustion. */
  function Positions(width: nat, height: nat, x: nat, y: nat): seq<(nat, nat)>
    decreases height - y, width - x
  {
    if y >= height then []
    else
      var next := Advance(x, y, width);
      [(x, y)] + Positions(width, height, next.0, next.1)
  }

  /** An iterator at (x, y) that has read `n` of the positions `P` reads
      `P[n]` next and then stands at the rest of `P`. */
  lemma PositionsStep(width: nat, height: nat, x: nat, y: nat, P: seq<(nat, nat)>, n: nat)
    requires n <= |P| && Positions(width, height, x, y) == P[n..] && y < height
    ensures n < |P| && P[n] == (x, y)
    ensures var next := Advance(x, y, width); Positions(width, height, next.0, next.1) == P[n + 1..]
  {
    assert P[n..][0] == (x, y);
    assert P[n..][1..] == P[n + 1..];
  }

  /** Row-major position number `k`. */
  function Pos(width: nat, k: nat): (p: (nat, nat))
    requires width > 0
    ensures p.0 < width && p.1 * width + p.0 == k
  {
    (k % width, k / width)
  }

  /** One step from position number `k` lands on position number `k + 1`. */
  lemma AdvancePos(width: nat, k: nat)
    requires width > 0
    ensures Advance(Pos(width, k).0, Pos(width, k).1, width) == Pos(width, k + 1)
  {
    var q, r := k / width, k % width;
    if r + 1 >= width {
      DivModUnique(k + 1, width, q + 1, 0);
    } else {
      DivModUnique(k + 1, width, q, r + 1);
    }
  }

  lemma RowOfPos(width: nat, height: nat, k: nat)
    requires width > 0
    ensures k < width * height <==> k / width < height
  {
    var q, r := k / width, k % width;
    if q >= height {
      MulMono(height, q, width);
    } else {
      MulMono(q + 1, height, width);
    }
  }

  /** From position number `k` on, the iterator reads the positions
      `k, k + 1, …, width * height - 1`. */
  lemma {:induction false} PositionsFrom(width: nat, height: nat, k: nat)
    requires width > 0 && k <= width * height
    ensures var ps := Positions(width, height, Pos(width, k).0, Pos(width, k).1);
      |ps| == width * height - k &&
      forall j :: 0 <= j < |ps| ==> ps[j] == Pos(width, k + j)
    decreases width * height - k
  {
    RowOfPos(width, height, k);
    if k < width * height {
      AdvancePos(width, k);
      PositionsFrom(width, height, k + 1);
    }
  }

  /** With no columns, every row is visited once, at x = 0. */
  lemma {:induction false} PositionsNoColumns(height: nat, y: nat)
    requires y <= height
    ensures var ps := Positions(0, height, 0, y);
      |ps| == height - y &&
      forall j :: 0 <= j < |ps| ==> ps[j] == (0, y + j)
    decreases height - y
  {
    if y < height {
      PositionsNoColumns(height, y + 1);
    }
  }

  /** The whole traversal from (0, 0): `width * height` positions in
      row-major order, except that a zero-width buffer still yields one
      position per row. */
  lemma Traversal(width: nat, height: nat)
    ensures |Positions(width, height, 0, 0)| == if width == 0 then height else width * height
    ensures width > 0 ==> forall k :: 0 <= k < width * height ==>
      Positions(width, height, 0, 0)[k] == Pos(width, k)
    ensures width == 0 ==> forall k :: 0 <= k < height ==>
      Positions(width, height, 0, 0)[k] == (0, k)
  {
    if width > 0 {
      assert Pos(width, 0) == (0, 0) by {
        DivModUnique(0, width, 0, 0);
      }
      PositionsFrom(width, height, 0);
    } else {
      PositionsNoColumns(height, 0);
    }
  }

  /** Every position read lies in a row below `height`, and in a column
      below `width` (column 0 when the width is zero). */
  lemma {:induction false} PositionsInRange(width: nat, height: nat, x: nat, y: nat)
    requires x < width || x == 0
    ensures forall p :: p in Positions(width, height, x, y) ==>
      y <= p.1 < height && (p.0 < width || p.0 == 0)
    decreases height - y, width - x
  {
    if y < height {
      var next := Advance(x, y, width);
      PositionsInRange(width, height, next.0, next.1);
    }
  }

  /** An iterator that reads through `get_pixel` passes its bounds check at
      every position exactly when the image has no more rows than columns:
      otherwise row `width` is visited and rejected. */
  lemma BoundsCheckPasses(width: nat, height: nat)
    requires width > 0
    ensures (forall p :: p in Positions(width, height, 0, 0) ==> !OutOfBounds(p.0, p.1, width)) <==> height <= width
  {
    PositionsInRange(width, height, 0, 0);
    if height > width {
      var k := width * width;
      MulMono(width + 1, height, width);
      assert (width + 1) * width == k + width;
      Traversal(width, height);
      MulAddDivMod(width, 0, width);
      assert Positions(width, height, 0, 0)[k] == (0, width);
    }
  }

  /** The item read at the `k`-th position of a traversal of a non-empty
      row is reported at position number `k + 1`. */
  lemma ReportedPositions(width: nat, height: nat)
    requires width > 0
    ensures forall k :: 0 <= k < |Positions(width, height, 0, 0)| ==>
      var p := Positions(width, height, 0, 0)[k];
      Advance(p.0, p.1, width) == Pos(width, k + 1)
  {
    Traversal(width, height);
    forall k | 0 <= k < |Positions(width, height, 0, 0)|
      ensures var p := Positions(width, height, 0, 0)[k];
        Advance(p.0, p.1, width) == Pos(width, k + 1)
    {
      AdvancePos(width, k);
    }
  }

  /** The items a row-major iterator over a `width`-by-`height` buffer
      yields, as far as their coordinates go: `width * height` of them, item
      `k` reported at position number `k + 1`. */
  predicate FromTraversal<T>(items: seq<Pixel<T>>, width: nat, height: nat) {
    width > 0 && |items| == width * height &&
    forall k :: 0 <= k < |items| ==> (items[k].x, items[k].y) == Pos(width, k + 1)
  }
}
