/** The buffer-to-buffer conversions: a fresh destination of the source's
    dimensions, then one `set_pixel(x, y, color.into()).unwrap()` per item
    the source iterator yields. */
module Conversion {
  import opened Pixels
  import opened RowMajor
  import FixedRGB
  import BGRA

  /** How a conversion ends: every write done, or a panic at the item with
      this index. */
  datatype Outcome = Completed | Panicked(index: nat)

  function Min(a: nat, b: nat): nat {
    if a <= b then a else b
  }

  /** Whether `set_pixel(x, y, _).unwrap()` on a fresh default-stride
      destination of `len`-byte pixels panics: the bounds check rejects (x, y),
      or the write reaches past the `width * len * height` bytes. */
  predicate WriteFails(width: nat, height: nat, len: nat, x: nat, y: nat) {
    OutOfBounds(x, y, width) || x * len + y * (width * len) + len > width * len * height
  }

  /** The index of the first item whose write panics, `|items|` if none. */
  function Stop<T>(items: seq<Pixel<T>>, width: nat, height: nat, len: nat): (n: nat)
    ensures n <= |items|
    ensures forall k :: 0 <= k < n ==> !WriteFails(width, height, len, items[k].x, items[k].y)
    ensures n < |items| ==> WriteFails(width, height, len, items[n].x, items[n].y)
    decreases |items|
  {
    if |items| == 0 then 0
    else if WriteFails(width, height, len, items[0].x, items[0].y) then 0
    else 1 + Stop(items[1..], width, height, len)
  }

  /** The store after writing `encode(item.color)` at each item's position in
      turn, `len` bytes per pixel and rows `stride` bytes apart. */
  function Paint<T(!new)>(bytes: seq<Byte>, items: seq<Pixel<T>>, stride: nat, len: nat, encode: T -> seq<Byte>): (r: seq<Byte>)
    requires forall t :: |encode(t)| == len
    requires forall k :: 0 <= k < |items| ==> Offset(items[k], stride, len) + len <= |bytes|
    ensures |r| == |bytes|
    decreases |items|
  {
    if |items| == 0 then bytes
    else
      var n := |items| - 1;
      var before := Paint(bytes, items[..n], stride, len, encode);
      Overwrite(before, Offset(items[n], stride, len), encode(items[n].color))
  }

  /** Offset of the pixel an item is written to, rows `stride` bytes apart. */
  function Offset<T>(item: Pixel<T>, stride: nat, len: nat): nat {
    item.x * len + item.y * stride
  }

  /** The outcome the first failing write decides. */
  function OutcomeOf<T>(items: seq<Pixel<T>>, width: nat, height: nat, len: nat): Outcome {
    var n := Stop(items, width, height, len);
    if n == |items| then Completed else Panicked(n)
  }

  /** Pixel (x, y) of a store of `height` rows of `width` pixels fits. */
  lemma FitsInStore(width: nat, height: nat, len: nat, x: nat, y: nat)
    requires x < width && y < height
    ensures x * len + y * (width * len) + len <= width * len * height
  {
    assert width * len >= len * width;
    CellInStore(len, width, width * len, height, x, y);
  }

  /** A position number below `width * m` lies on one of the first `m` rows. */
  lemma RowBelow(width: nat, m: nat, p: (nat, nat), k: nat)
    requires p.0 < width && p.1 * width + p.0 == k && k < width * m
    ensures p.1 < m
  {
    if p.1 >= m {
      MulMono(m, p.1, width);
    }
  }

  /** Position number `width * m` starts row `m`. */
  lemma RowStart(width: nat, m: nat)
    requires width > 0
    ensures Pos(width, width * m) == (0, m)
  {
    assert width * m == m * width + 0;
    MulAddDivMod(m, 0, width);
  }

  /** Converting a whole traversal panics at item `width * min(width,
      height) - 1`: the last item when the height does not exceed the width
      (its position (0, height) lies past the store, or fails the check when
      the two are equal), otherwise the item reported on row `width`, which
      the bounds check rejects. */
  lemma TraversalStop<T>(items: seq<Pixel<T>>, width: nat, height: nat, len: nat)
    requires FromTraversal(items, width, height) && height > 0 && len > 0
    ensures Stop(items, width, height, len) == width * Min(width, height) - 1
  {
    var m := Min(width, height);
    var last := width * m - 1;
    MulAtLeast(width, m);
    MulMono(m, height, width);
    assert m * width == width * m && height * width == width * height;
    assert last < |items|;
    forall k | 0 <= k < last
      ensures !WriteFails(width, height, len, items[k].x, items[k].y)
    {
      var p := Pos(width, k + 1);
      RowBelow(width, m, p, k + 1);
      FitsInStore(width, height, len, p.0, p.1);
    }
    RowStart(width, m);
    assert (items[last].x, items[last].y) == (0, m);
    if m < width {
      assert height * (width * len) == width * len * height;
    }
    assert WriteFails(width, height, len, items[last].x, items[last].y);
  }

  /** Hence converting the items of a whole traversal of a non-empty
      buffer never completes: it panics, at the latest on the last item. */
  lemma TraversalPanics<T>(items: seq<Pixel<T>>, width: nat, height: nat, len: nat)
    requires FromTraversal(items, width, height) && height > 0 && len > 0
    ensures OutcomeOf(items, width, height, len) == Panicked(width * Min(width, height) - 1)
    ensures OutcomeOf(items, width, height, len).index < |items|
  {
    TraversalStop(items, width, height, len);
    MulAtLeast(width, Min(width, height));
    MulMono(Min(width, height), height, width);
  }

  /** Offset of the pixel an item is written to. */
  function Start<T>(item: Pixel<T>, width: nat, len: nat): nat {
    item.x * len + item.y * (width * len)
  }

  /** Whether the `len` bytes from `s` on are `unit`. */
  predicate Holds(bytes: seq<Byte>, s: nat, len: nat, unit: seq<Byte>) {
    s + len <= |bytes| && bytes[s..s + len] == unit
  }

  /** The destination store after the writes of the first `n` items. */
  function Painted<T(!new)>(items: seq<Pixel<T>>, n: nat, width: nat, height: nat, len: nat, encode: T -> seq<Byte>): seq<Byte>
    requires forall t :: |encode(t)| == len
    requires n <= Stop(items, width, height, len)
  {
    Paint(Zeros(width * len * height), items[..n], width * len, len, encode)
  }

  /** A write over a range leaves a disjoint range holding what it held. */
  lemma KeepsDisjoint(before: seq<Byte>, start: nat, unit: seq<Byte>, s: nat, len: nat, held: seq<Byte>)
    requires start + |unit| <= |before| && Holds(before, s, len, held)
    requires s + len <= start || start + |unit| <= s
    ensures Holds(Overwrite(before, start, unit), s, len, held)
  {
    OverwriteElsewhere(before, start, unit, s, s + len);
  }

  /** Whether pixel (0, 0) of `bytes` holds zeros and the pixel of each of
      the first `n` items holds its encoded colour. */
  ghost predicate PaintedAsReported<T>(bytes: seq<Byte>, items: seq<Pixel<T>>, n: nat, width: nat, len: nat,
                                      encode: T -> seq<Byte>)
    requires n <= |items|
  {
    Holds(bytes, 0, len, Zeros(len)) &&
    forall j :: 0 <= j < n ==> Holds(bytes, Start(items[j], width, len), len, encode(items[j].color))
  }

  /** Nothing written yet: the fresh store holds zeros at (0, 0). */
  lemma PaintedNone<T(!new)>(items: seq<Pixel<T>>, width: nat, height: nat, len: nat, encode: T -> seq<Byte>)
    requires width > 0 && height > 0
    requires forall t :: |encode(t)| == len
    ensures PaintedAsReported(Painted(items, 0, width, height, len, encode), items, 0, width, len, encode)
  {
    MulAtLeast(width * len, height);
    MulAtLeast(len, width);
    assert width * len == len * width;
  }

  /** The store after `n` writes is the store after `n - 1` with item
      `n - 1` written over it. */
  lemma PaintedStep<T(!new)>(items: seq<Pixel<T>>, width: nat, height: nat, len: nat, encode: T -> seq<Byte>, n: nat)
    requires forall t :: |encode(t)| == len
    requires 0 < n <= Stop(items, width, height, len)
    ensures Painted(items, n, width, height, len, encode) ==
      Overwrite(Painted(items, n - 1, width, height, len, encode), Start(items[n - 1], width, len), encode(items[n - 1].color))
  {
    assert items[..n][..n - 1] == items[..n - 1];
  }

  /** Writing the item reported at position number `n` keeps (0, 0) and the
      pixels of the items before it, and stores its own colour. */
  lemma PaintedKeeps<T>(before: seq<Byte>, items: seq<Pixel<T>>, width: nat, len: nat, encode: T -> seq<Byte>, n: nat)
    requires forall t :: |encode(t)| == len
    requires width > 0 && 0 < n <= |items|
    requires forall k :: 0 <= k < |items| ==> (items[k].x, items[k].y) == Pos(width, k + 1)
    requires Start(items[n - 1], width, len) + len <= |before|
    requires PaintedAsReported(before, items, n - 1, width, len, encode)
    ensures PaintedAsReported(Overwrite(before, Start(items[n - 1], width, len), encode(items[n - 1].color)),
                              items, n, width, len, encode)
  {
    var q := Pos(width, n);
    var s := Start(items[n - 1], width, len);
    var unit := encode(items[n - 1].color);
    var bytes := Overwrite(before, s, unit);
    assert width * len == len * width;
    CellsDisjoint(len, width * len, width, 0, 0, q.0, q.1);
    KeepsDisjoint(before, s, unit, 0, len, Zeros(len));
    forall j | 0 <= j < n
      ensures Holds(bytes, Start(items[j], width, len), len, encode(items[j].color))
    {
      if j == n - 1 {
        OverwriteRead(before, s, unit);
      } else {
        var p := Pos(width, j + 1);
        CellsDisjoint(len, width * len, width, p.0, p.1, q.0, q.1);
        KeepsDisjoint(before, s, unit, Start(items[j], width, len), len, encode(items[j].color));
      }
    }
  }

  /** After the writes of the items before the one that panics, pixel
      (0, 0) of the destination still holds zeros, and the pixel at the
      reported position of each written item holds its encoded colour: the
      colour of row-major pixel `k` lands at position number `k + 1`. */
  lemma {:induction false} TraversalPaint<T(!new)>(items: seq<Pixel<T>>, width: nat, height: nat, len: nat,
                                                   encode: T -> seq<Byte>, n: nat)
    requires FromTraversal(items, width, height) && height > 0
    requires forall t :: |encode(t)| == len
    requires n <= Stop(items, width, height, len)
    ensures PaintedAsReported(Painted(items, n, width, height, len, encode), items, n, width, len, encode)
  {
    if n == 0 {
      PaintedNone(items, width, height, len, encode);
    } else {
      TraversalPaint(items, width, height, len, encode, n - 1);
      PaintedStep(items, width, height, len, encode, n);
      PaintedKeeps(Painted(items, n - 1, width, height, len, encode), items, width, len, encode, n);
    }
  }

  /** The conversion into an RGB buffer, for items whose colours `into`
      converts. */
  method IntoRGB<T(!new)>(width: nat, height: nat, items: seq<Pixel<T>>, into: T -> RGBColor)
    returns (dst: FixedRGB.RGBPixelBuffer, outcome: Outcome)
    ensures fresh(dst) && fresh(dst.data)
    ensures dst.width == width && dst.height == height && dst.stride == width * 3
    ensures outcome == OutcomeOf(items, width, height, 3)
    ensures dst.data[..] ==
      Paint(Zeros(width * 3 * height), items[..Stop(items, width, height, 3)], width * 3, 3, c => into(c).Bytes())
  {
    dst := new FixedRGB.RGBPixelBuffer.New(width, height, None);
    ghost var encode := (c: T) => into(c).Bytes();
    var k := 0;
    while k < |items|
      invariant k <= Stop(items, width, height, 3)
      invariant dst.data[..] == Painted(items, k, width, height, 3, encode)
    {
      var item := items[k];
      if !OutOfBounds(item.x, item.y, width) && !dst.Addressable(item.x, item.y) {
        return dst, Panicked(k);
      }
      var r := dst.SetPixel(item.x, item.y, into(item.color));
      if r.Err? {
        return dst, Panicked(k);
      }
      PaintedStep(items, width, height, 3, encode, k + 1);
      k := k + 1;
    }
    assert items[..k] == items;
    return dst, Completed;
  }

  /** The conversion into a BGRA buffer, for items whose colours `into`
      converts. */
  method IntoBGRA<T(!new)>(width: nat, height: nat, items: seq<Pixel<T>>, into: T -> RGBAColor)
    returns (dst: BGRA.BGRAPixelBuffer, outcome: Outcome)
    ensures fresh(dst) && fresh(dst.data)
    ensures dst.width == width && dst.height == height && dst.stride == width * 4
    ensures outcome == OutcomeOf(items, width, height, 4)
    ensures dst.data[..] ==
      Paint(Zeros(width * 4 * height), items[..Stop(items, width, height, 4)], width * 4, 4, c => BGRA.Layout(into(c)))
  {
    dst := new BGRA.BGRAPixelBuffer.New(width, height, None);
    ghost var encode := (c: T) => BGRA.Layout(into(c));
    var k := 0;
    while k < |items|
      invariant k <= Stop(items, width, height, 4)
      invariant dst.data[..] == Painted(items, k, width, height, 4, encode)
    {
      var item := items[k];
      if !OutOfBounds(item.x, item.y, width) && !dst.Addressable(item.x, item.y) {
        return dst, Panicked(k);
      }
      var r := dst.SetPixel(item.x, item.y, into(item.color));
      if r.Err? {
        return dst, Panicked(k);
      }
      PaintedStep(items, width, height, 4, encode, k + 1);
      k := k + 1;
    }
    assert items[..k] == items;
    return dst, Completed;
  }
}
