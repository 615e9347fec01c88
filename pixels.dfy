/** Shared vocabulary of the pixel-buffer engine: bytes, colour records, the two
    error kinds, iterator items, and the byte-sequence shapes every layout is
    built from (repetition, zero padding, in-place overwrite). */
module Pixels {

  /** One byte of a pixel store (`u8`). */
  type Byte = b: int | 0 <= b < 256

  /** The only two ways a buffer operation fails. */
  datatype PixelBufferError = BufferTooSmall | RequestOutOfBounds

  datatype Option<T> = None | Some(value: T) {
    function GetOr(default: T): T {
      match this
      case Some(v) => v
      case None => default
    }
  }

  datatype Result<T> = Ok(value: T) | Err(error: PixelBufferError)

  /** An iterator item: the coordinates reported with a colour, and the colour. */
  datatype Pixel<T> = Pixel(x: nat, y: nat, color: T)

  // Colour values of the external colour model, kept as byte records. Their
  // conversions to and from byte arrays keep the field order of the record.

  datatype RGBColor = RGBColor(r: Byte, g: Byte, b: Byte) {
    function Bytes(): (s: seq<Byte>)
      ensures |s| == 3 && RGBFromBytes(s) == this
    {
      [r, g, b]
    }
  }

  datatype RGBAColor = RGBAColor(r: Byte, g: Byte, b: Byte, a: Byte) {
    function Bytes(): (s: seq<Byte>)
      ensures |s| == 4 && RGBAFromBytes(s) == this
    {
      [r, g, b, a]
    }
  }

  datatype YCbCrColor = YCbCrColor(y: Byte, cb: Byte, cr: Byte)

  datatype GrayscaleColor = GrayscaleColor(v: Byte)

  function RGBFromBytes(s: seq<Byte>): RGBColor
    requires |s| == 3
  {
    RGBColor(s[0], s[1], s[2])
  }

  function RGBAFromBytes(s: seq<Byte>): RGBAColor
    requires |s| == 4
  {
    RGBAColor(s[0], s[1], s[2], s[3])
  }

  /** The bounds test every `get_pixel` and `set_pixel` applies: both
      coordinates are compared with the width. */
  predicate OutOfBounds(x: nat, y: nat, width: nat) {
    x >= width || y >= width
  }

  /** The chroma blending rule `(stored + incoming) >> 1`, over unbounded integers. */
  function Average(stored: Byte, incoming: Byte): (r: Byte)
    ensures 2 * r <= stored + incoming <= 2 * r + 1
    ensures (stored <= r <= incoming) || (incoming <= r <= stored)
  {
    (stored + incoming) / 2
  }

  /** `n` zero bytes. */
  function Zeros(n: nat): (r: seq<Byte>)
    ensures |r| == n
    ensures forall k :: 0 <= k < n ==> r[k] == 0
  {
    seq(n, _ => 0)
  }

  /** `s` repeated `n` times (`slice.repeat(n)`). */
  function Repeat<T>(s: seq<T>, n: nat): (r: seq<T>)
    ensures |r| == |s| * n
  {
    if n == 0 then [] else s + Repeat(s, n - 1)
  }

  /** `s` with the bytes `w` written from position `start` on. */
  function Overwrite(s: seq<Byte>, start: nat, w: seq<Byte>): (r: seq<Byte>)
    requires start + |w| <= |s|
    ensures |r| == |s|
    ensures forall k :: 0 <= k < |s| ==>
      r[k] == if start <= k < start + |w| then w[k - start] else s[k]
  {
    s[..start] + w + s[start + |w|..]
  }

  /** The byte store of `new_with_background`: `height` rows, each holding
      `perRow` copies of `unit` (one per pixel or macropixel) followed by `pad`
      zero bytes. A packed store, built as one repetition of `unit`, holds the
      same bytes with `pad == 0`. */
  function Background(unit: seq<Byte>, perRow: nat, pad: nat, height: nat): seq<Byte> {
    Repeat(Repeat(unit, perRow) + Zeros(pad), height)
  }

  lemma {:induction false} MulAtLeast(n: nat, d: int)
    requires d >= 1
    ensures n * d >= n
  {
    if d > 1 {
      MulAtLeast(n, d - 1);
      assert n * d == n * (d - 1) + n;
    }
  }

  /** Multiplication by a natural number is monotone. */
  lemma MulMono(a: int, b: int, n: nat)
    requires a <= b
    ensures a * n <= b * n
  {
    if a < b {
      MulAtLeast(n, b - a);
      assert b * n - a * n == n * (b - a);
    }
  }

  /** Euclidean division is determined by quotient and remainder. */
  lemma DivModUnique(a: int, n: int, q: int, r: int)
    requires n > 0 && 0 <= r < n && a == q * n + r
    ensures a / n == q && a % n == r
  {
    var q', r' := a / n, a % n;
    assert a == q' * n + r';
    if q - q' >= 1 {
      MulAtLeast(n, q - q');
      assert false;
    } else if q' - q >= 1 {
      MulAtLeast(n, q' - q);
      assert false;
    }
  }

  lemma MulAddDivMod(q: nat, r: nat, n: nat)
    requires r < n
    ensures (q * n + r) / n == q && (q * n + r) % n == r
  {
    DivModUnique(q * n + r, n, q, r);
  }

  /** Row `y`, column `j` of a repetition of whole rows. */
  lemma RepeatRowAt<T>(line: seq<T>, n: nat, y: nat, j: nat)
    requires y < n && j < |line|
    ensures y * |line| + j < |line| * n
    ensures Repeat(line, n)[y * |line| + j] == line[j]
  {
    RepeatSlice(line, n, y);
    var a := |line| * y;
    assert Repeat(line, n)[a..a + |line|][j] == line[j];
  }

  /** In a background store whose rows are `stride` bytes wide, byte `i` of
      unit `x` of row `y` sits at `x * |unit| + y * stride + i` and equals
      `unit[i]`. */
  lemma BackgroundUnit(unit: seq<Byte>, perRow: nat, stride: nat, height: nat, x: nat, y: nat, i: nat)
    requires stride >= |unit| * perRow
    requires x < perRow && y < height && i < |unit|
    ensures var data := Background(unit, perRow, stride - |unit| * perRow, height);
      |data| == stride * height &&
      x * |unit| + y * stride + i < |data| &&
      data[x * |unit| + y * stride + i] == unit[i]
  {
    RepeatRowAt(unit, perRow, x, i);
    var line := Repeat(unit, perRow) + Zeros(stride - |unit| * perRow);
    assert |line| == stride;
    RepeatRowAt(line, height, y, x * |unit| + i);
  }

  /** The whole unit `x` of row `y` of a background store. */
  lemma BackgroundCell(unit: seq<Byte>, perRow: nat, stride: nat, height: nat, x: nat, y: nat)
    requires stride >= |unit| * perRow
    requires x < perRow && y < height
    ensures var data := Background(unit, perRow, stride - |unit| * perRow, height);
      |data| == stride * height &&
      x * |unit| + y * stride + |unit| <= |data| &&
      data[x * |unit| + y * stride .. x * |unit| + y * stride + |unit|] == unit
  {
    BackgroundLength(unit, perRow, stride, height);
    CellInStore(|unit|, perRow, stride, height, x, y);
    CellSlice(unit, perRow, stride, height, x, y);
  }

  /** A background store holds `height` rows of `stride` bytes. */
  lemma BackgroundLength(unit: seq<Byte>, perRow: nat, stride: nat, height: nat)
    requires stride >= |unit| * perRow
    ensures |Background(unit, perRow, stride - |unit| * perRow, height)| == stride * height
  {
    var line := Repeat(unit, perRow) + Zeros(stride - |unit| * perRow);
    assert |line| == stride;
  }

  /** Unit `x` of row `y` of a background store, with the offset written
      row part first. */
  lemma CellSlice(unit: seq<Byte>, perRow: nat, stride: nat, height: nat, x: nat, y: nat)
    requires stride >= |unit| * perRow
    requires x < perRow && y < height
    ensures var data := Background(unit, perRow, stride - |unit| * perRow, height);
      |unit| * x + stride * y + |unit| <= |data| &&
      data[|unit| * x + stride * y .. |unit| * x + stride * y + |unit|] == unit
  {
    var pad := Zeros(stride - |unit| * perRow);
    var line := Repeat(unit, perRow) + pad;
    assert |line| == stride;
    UnitInLine(unit, perRow, pad, x);
    CellOfLines(Repeat(line, height), line, height, y, unit, |unit| * x);
  }

  /** Unit `x` of a row of `perRow` units followed by `pad`. */
  lemma UnitInLine<T>(unit: seq<T>, perRow: nat, pad: seq<T>, x: nat)
    requires x < perRow
    ensures var line := Repeat(unit, perRow) + pad;
      |unit| * x + |unit| <= |line| && line[|unit| * x .. |unit| * x + |unit|] == unit
  {
    var row := Repeat(unit, perRow);
    RepeatSlice(unit, perRow, x);
    assert (row + pad)[|unit| * x .. |unit| * x + |unit|] == row[|unit| * x .. |unit| * x + |unit|];
  }

  /** What sits at offset `b` of `line` sits at offset `b` of copy `y` of a
      repetition of `line`. */
  lemma CellOfLines<T>(lines: seq<T>, line: seq<T>, height: nat, y: nat, unit: seq<T>, b: nat)
    requires lines == Repeat(line, height) && y < height
    requires b + |unit| <= |line| && line[b..b + |unit|] == unit
    ensures b + |line| * y + |unit| <= |lines| && lines[b + |line| * y .. b + |line| * y + |unit|] == unit
  {
    RepeatSlice(line, height, y);
    SliceOfSlice(lines, |line| * y, |line|, b, |unit|);
  }

  /** Copy `q` of a repetition, as one slice. */
  lemma {:induction false} RepeatSlice<T>(s: seq<T>, n: nat, q: nat)
    requires q < n
    ensures |s| * q + |s| <= |s| * n
    ensures Repeat(s, n)[|s| * q .. |s| * q + |s|] == s
  {
    if q > 0 {
      RepeatSlice(s, n - 1, q - 1);
      assert |s| * q == |s| + |s| * (q - 1);
      assert |s| * n == |s| + |s| * (n - 1);
      var rest := Repeat(s, n - 1);
      assert Repeat(s, n)[|s| * q .. |s| * q + |s|] == rest[|s| * (q - 1) .. |s| * (q - 1) + |s|];
    }
  }

  /** A slice of a slice. */
  lemma SliceOfSlice<T>(s: seq<T>, a: nat, len: nat, b: nat, m: nat)
    requires a + len <= |s| && b + m <= len
    ensures b + a + m <= |s| && s[a..a + len][b..b + m] == s[b + a..b + a + m]
  {
    var inner, direct := s[a..a + len][b..b + m], s[b + a..b + a + m];
    forall i | 0 <= i < m
      ensures inner[i] == direct[i]
    {
    }
  }

  /** Pixel `x` of row `y` lies inside a store of `height` rows of `stride`
      bytes when the row's pixels fit into the stride. */
  lemma CellInStore(len: nat, perRow: nat, stride: nat, height: nat, x: nat, y: nat)
    requires stride >= len * perRow
    requires x < perRow && y < height
    ensures x * len + y * stride + len <= stride * height
  {
    MulMono(x + 1, perRow, len);
    assert (x + 1) * len == x * len + len;
    MulMono(y + 1, height, stride);
    assert (y + 1) * stride == y * stride + stride;
  }

  /** In a background store, every byte of a row beyond
      `perRow * |unit|` is zero. */
  lemma BackgroundPadding(unit: seq<Byte>, perRow: nat, stride: nat, height: nat, y: nat, j: nat)
    requires y < height && |unit| * perRow <= j < stride
    ensures var data := Background(unit, perRow, stride - |unit| * perRow, height);
      |data| == stride * height &&
      y * stride + j < |data| &&
      data[y * stride + j] == 0
  {
    var line := Repeat(unit, perRow) + Zeros(stride - |unit| * perRow);
    assert |line| == stride;
    RepeatRowAt(line, height, y, j);
  }

  lemma {:induction false} RepeatAdd<T>(s: seq<T>, m: nat, n: nat)
    ensures Repeat(s, m + n) == Repeat(s, m) + Repeat(s, n)
  {
    if m > 0 {
      RepeatAdd(s, m - 1, n);
      assert Repeat(s, m + n) == s + Repeat(s, m - 1 + n);
    }
  }

  lemma {:induction false} RepeatNested<T>(s: seq<T>, a: nat, b: nat)
    ensures Repeat(s, a * b) == Repeat(Repeat(s, a), b)
  {
    if b > 0 {
      RepeatNested(s, a, b - 1);
      assert a * b == a + a * (b - 1);
      RepeatAdd(s, a, a * (b - 1));
    }
  }

  /** Repeating one unit per pixel over the whole image gives the same bytes
      as padding-free rows. */
  lemma PackedBackground(unit: seq<Byte>, perRow: nat, height: nat)
    ensures Repeat(unit, perRow * height) == Background(unit, perRow, 0, height)
  {
    assert Repeat(unit, perRow) + Zeros(0) == Repeat(unit, perRow);
    RepeatNested(unit, perRow, height);
  }

  /** The byte ranges of two different pixels of a row-major store are
      disjoint when every pixel of a row fits into the stride. */
  lemma CellsDisjoint(len: nat, stride: nat, width: nat, x: nat, y: nat, x': nat, y': nat)
    requires x < width && x' < width && stride >= width * len
    requires (x, y) != (x', y')
    ensures x * len + y * stride + len <= x' * len + y' * stride ||
            x' * len + y' * stride + len <= x * len + y * stride
  {
    if y == y' {
      if x < x' {
        CellBeforeInRow(len, x, x');
      } else {
        CellBeforeInRow(len, x', x);
      }
    } else if y < y' {
      CellBeforeInColumn(len, stride, width, x, y, x', y');
    } else {
      CellBeforeInColumn(len, stride, width, x', y', x, y);
    }
  }

  lemma CellBeforeInRow(len: nat, x: nat, x': nat)
    requires x < x'
    ensures x * len + len <= x' * len
  {
    MulMono(x + 1, x', len);
    assert (x + 1) * len == x * len + len;
  }

  lemma CellBeforeInColumn(len: nat, stride: nat, width: nat, x: nat, y: nat, x': nat, y': nat)
    requires x < width && stride >= width * len && y < y'
    ensures x * len + y * stride + len <= x' * len + y' * stride
  {
    CellBeforeInRow(len, x, width);
    MulMono(y + 1, y', stride);
    assert (y + 1) * stride == y * stride + stride;
    assert width * len == len * width;
  }

  /** Overwriting one range leaves a disjoint range as it was. */
  lemma OverwriteElsewhere(s: seq<Byte>, start: nat, w: seq<Byte>, from: nat, to: nat)
    requires start + |w| <= |s| && from <= to <= |s|
    requires to <= start || start + |w| <= from
    ensures Overwrite(s, start, w)[from..to] == s[from..to]
  {
  }

  /** Overwriting a range and reading it back gives the written bytes. */
  lemma OverwriteRead(s: seq<Byte>, start: nat, w: seq<Byte>)
    requires start + |w| <= |s|
    ensures Overwrite(s, start, w)[start..start + |w|] == w
  {
  }
}
