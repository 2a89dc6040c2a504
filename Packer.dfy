/** The capture-side frame packer (PointPainterWPF/MainWindow.xaml.cs): it turns
    a depth frame and a colour frame into the `5 * W * H`-byte point buffer the
    server sends, builds the depth-pixel to colour-pixel index map, maps depths
    to grey levels for display and serialises the calibration table. */
module Packer {
  import opened Bytes

  datatype Option<T> = None | Some(value: T)

  /** Copies `src` into `dst` starting at `dstIndex`, as `Array.Copy(src, 0, dst, dstIndex, src.Length)`. */
  method CopyBytes(src: seq<byte>, dst: array<byte>, dstIndex: nat)
    requires dstIndex + |src| <= dst.Length
    modifies dst
    ensures dst[..] == old(dst[..dstIndex]) + src + old(dst[dstIndex + |src|..])
  {
    forall k | 0 <= k < |src| {
      dst[dstIndex + k] := src[k];
    }
    assert dst[..] == old(dst[..dstIndex]) + src + old(dst[dstIndex + |src|..]);
  }

  // ---------------------------------------------------------------------------
  // Grey levels for the depth display

  /** Depth units per grey level: `8000 / 256` in integer division. */
  const MapDepthToByte: int := 8000 / 256

  lemma MapDepthToByteIs31()
    ensures MapDepthToByte == 31
  {
  }

  /** The display grey level of one depth sample: 0 outside `[minDepth, maxDepth]`,
      otherwise `depth / MapDepthToByte` truncated to a byte by the `(byte)` cast. */
  function DepthToGrey(depth: ushort, minDepth: ushort, maxDepth: ushort): (g: byte)
    ensures !(minDepth <= depth <= maxDepth) ==> g == 0
    ensures minDepth <= depth <= maxDepth ==> (depth / MapDepthToByte - g) % 0x100 == 0
    ensures minDepth <= depth <= maxDepth && depth < 0x100 * MapDepthToByte ==>
              g * MapDepthToByte <= depth < (g + 1) * MapDepthToByte
  {
    assert MapDepthToByte == 31;
    if depth >= minDepth && depth <= maxDepth then (depth / MapDepthToByte) % 0x100 else 0
  }

  /** Below 256 * 31 = 7936 the grey level never decreases as the depth grows. */
  lemma GreyMonotoneBelowWrap(d1: ushort, d2: ushort, minDepth: ushort, maxDepth: ushort)
    requires minDepth <= d1 <= d2 <= maxDepth
    requires d2 < 0x100 * MapDepthToByte
    ensures DepthToGrey(d1, minDepth, maxDepth) <= DepthToGrey(d2, minDepth, maxDepth)
  {
    MapDepthToByteIs31();
    var g1: int, g2: int := DepthToGrey(d1, minDepth, maxDepth), DepthToGrey(d2, minDepth, maxDepth);
    assert g1 * 31 <= d1 <= d2 < g2 * 31 + 31;
  }

  /** With `maxDepth = ushort.MaxValue`, as the frame handler passes, the truncating
      cast wraps: depth 7935 is white and depth 7936 is black again. */
  lemma GreyWrapsAt7936()
    ensures DepthToGrey(7935, 0, 0xFFFF) == 255
    ensures DepthToGrey(7936, 0, 0xFFFF) == 0
  {
  }

  // ---------------------------------------------------------------------------
  // Depth-pixel to colour-pixel index

  /** A C# `float` as the index computation sees it: a finite value or an
      infinity. NaN is not modelled. */
  datatype Single = Finite(value: real) | PositiveInfinity | NegativeInfinity

  /** A reprojected point in colour-image coordinates, as the coordinate mapper returns it. */
  datatype ColorSpacePoint = ColorSpacePoint(X: Single, Y: Single)

  /** The `(int)` cast of a float: truncation toward zero. */
  function Trunc(r: real): (t: int)
    ensures r >= 0.0 ==> t as real <= r < t as real + 1.0
    ensures r < 0.0 ==> t as real - 1.0 < r <= t as real
  {
    if r >= 0.0 then r.Floor else -((-r).Floor)
  }

  /** The C# float remainder `a % b` for `b > 0`: it keeps the sign of `a`. */
  function FMod(a: real, b: real): (m: real)
    requires b > 0.0
    ensures a >= 0.0 ==> 0.0 <= m < b
    ensures a < 0.0 ==> -b < m <= 0.0
    ensures a - m == Trunc(a / b) as real * b
  {
    TruncQuotient(a, b);
    a - Trunc(a / b) as real * b
  }

  lemma MulLe(x: real, y: real, b: real)
    requires x <= y && b > 0.0
    ensures x * b <= y * b
  {
  }

  lemma MulLt(x: real, y: real, b: real)
    requires x < y && b > 0.0
    ensures x * b < y * b
  {
  }

  /** `b` times the truncated quotient `a / b` lies within `b` of `a`, on the side of zero. */
  lemma TruncQuotient(a: real, b: real)
    requires b > 0.0
    ensures a >= 0.0 ==> Trunc(a / b) as real * b <= a < Trunc(a / b) as real * b + b
    ensures a < 0.0 ==> Trunc(a / b) as real * b - b < a <= Trunc(a / b) as real * b
  {
    var q := a / b;
    assert q * b == a;
    if a >= 0.0 {
      assert q >= 0.0;
      TruncBelow(a, q, Trunc(q) as real, b);
    } else {
      assert q < 0.0;
      TruncAbove(a, q, Trunc(q) as real, b);
    }
  }

  lemma TruncBelow(a: real, q: real, t: real, b: real)
    requires b > 0.0 && q * b == a && t <= q < t + 1.0
    ensures t * b <= a < t * b + b
  {
    MulLe(t, q, b);
    MulLt(q, t + 1.0, b);
    calc {
      a;
    ==
      q * b;
    <
      (t + 1.0) * b;
    ==
      t * b + b;
    }
    calc {
      t * b;
    <=
      q * b;
    ==
      a;
    }
  }

  lemma TruncAbove(a: real, q: real, t: real, b: real)
    requires b > 0.0 && q * b == a && t - 1.0 < q <= t
    ensures t * b - b < a <= t * b
  {
    MulLe(q, t, b);
    MulLt(t - 1.0, q, b);
    calc {
      a;
    ==
      q * b;
    >
      (t - 1.0) * b;
    ==
      t * b - b;
    }
    calc {
      a;
    ==
      q * b;
    <=
      t * b;
    }
  }

  /** A row below `height` and a column below `width` address one of `width * height` cells. */
  lemma CellInGrid(row: int, col: int, width: nat, height: nat)
    requires 0 <= row < height && 0 <= col < width
    ensures 0 <= row * width + col < width * height
  {
    assert row * width <= (height - 1) * width by {
      MulMonotoneInt(row, height - 1, width);
    }
    assert (height - 1) * width == width * height - width;
  }

  lemma MulMonotoneInt(x: int, y: int, c: nat)
    requires x <= y
    ensures x * c <= y * c
  {
  }

  /** `float.IsInfinity(v) ? 0 : v`. */
  function ZeroIfInfinite(f: Single): real
  {
    if f.Finite? then f.value else 0.0
  }

  /** The index `GetDepthArrayIndex` computes before its range check:
      infinities read as 0, `y` wrapped by `(y + H) % H`, both truncated, `y * W + x`. */
  function RawColorIndex(xRaw: Single, yRaw: Single, width: nat, height: nat): int
    requires height > 0
  {
    var xParam := ZeroIfInfinite(xRaw);
    var yParam := FMod(ZeroIfInfinite(yRaw) + height as real, height as real);
    Trunc(yParam) * width + Trunc(xParam)
  }

  /** `GetDepthArrayIndex` as written: `None` stands for the thrown exception.
      The guard rejects only `ret < 0 || ret > W * H`, so `W * H` itself passes. */
  function GetDepthArrayIndex(xRaw: Single, yRaw: Single, width: nat, height: nat): (r: Option<int>)
    requires height > 0
    ensures r.Some? ==> 0 <= r.value <= width * height
    ensures r.Some? ==> r.value == RawColorIndex(xRaw, yRaw, width, height)
    ensures r.None? ==> !(0 <= RawColorIndex(xRaw, yRaw, width, height) <= width * height)
  {
    var ret := RawColorIndex(xRaw, yRaw, width, height);
    if ret < 0 || ret > width * height then None else Some(ret)
  }

  /** The index function with the range check evidently intended: every index it
      returns addresses a pixel of the `W * H` colour image. It agrees with the
      function as written everywhere except at `W * H`. */
  function GetDepthArrayIndexBounded(xRaw: Single, yRaw: Single, width: nat, height: nat): (r: Option<int>)
    requires height > 0
    ensures r.Some? ==> 0 <= r.value < width * height
    ensures r.Some? <==> GetDepthArrayIndex(xRaw, yRaw, width, height).Some? &&
                         GetDepthArrayIndex(xRaw, yRaw, width, height).value != width * height
    ensures r.Some? ==> r == GetDepthArrayIndex(xRaw, yRaw, width, height)
  {
    var ret := RawColorIndex(xRaw, yRaw, width, height);
    if ret < 0 || ret >= width * height then None else Some(ret)
  }

  /** For `0 <= v < 2 * n`, the float remainder `v % n` is `v` or `v - n`. */
  lemma FModBelowTwice(v: int, n: nat)
    requires 0 <= v < 2 * n
    ensures FMod(v as real, n as real) == (if v < n then v else v - n) as real
  {
    var a, b := v as real, n as real;
    QuotientBelowTwice(a, b, FMod(a, b), Trunc(a / b));
  }

  /** If `a - m = t * b` with `0 <= a < 2b` and `0 <= m < b`, then `t` is 0 or 1. */
  lemma QuotientBelowTwice(a: real, b: real, m: real, t: int)
    requires 0.0 <= a < 2.0 * b && 0.0 <= m < b
    requires a - m == t as real * b
    ensures a < b ==> m == a
    ensures a >= b ==> m == a - b
  {
    QuotientAtMostOne(a - m, b, t);
    QuotientNotNegative(a - m, b, t);
    if t == 0 {
      assert t as real * b == 0.0;
    } else {
      assert t as real * b == b;
    }
  }

  /** A multiple `t * b` below `2b` has `t <= 1`. */
  lemma QuotientAtMostOne(x: real, b: real, t: int)
    requires b > 0.0 && x == t as real * b && x < 2.0 * b
    ensures t <= 1
  {
    if t >= 2 {
      ScaleAtLeast(t, 2, b);
    }
  }

  /** A multiple `t * b` above `-b` has `t >= 0`. */
  lemma QuotientNotNegative(x: real, b: real, t: int)
    requires b > 0.0 && x == t as real * b && x > -b
    ensures t >= 0
  {
    if t < 0 {
      ScaleAtMost(t, -1, b);
    }
  }

  lemma ScaleAtLeast(t: int, k: int, b: real)
    requires t >= k && b > 0.0
    ensures t as real * b >= k as real * b
  {
    assert (t - k) as real * b >= 0.0;
  }

  lemma ScaleAtMost(t: int, k: int, b: real)
    requires t <= k && b > 0.0
    ensures t as real * b <= k as real * b
  {
    assert (k - t) as real * b >= 0.0;
  }

  /** An integral `y` in `[-H, H)` lands in row `y` when it is not negative and in
      row `y + H` when it is. */
  lemma RowOfIntegralY(y: int, height: nat)
    requires -(height as int) <= y < height
    ensures Trunc(FMod(y as real + height as real, height as real)) == if y >= 0 then y else y + height
  {
    FModBelowTwice(y + height, height);
    assert (y + height) as real == y as real + height as real;
    var row := if y >= 0 then y else y + height;
    assert Trunc(row as real) == row;
  }

  /** For integral coordinates `0 <= x < W` and `0 <= y < H` both index functions
      return `y * W + x`; an integral `y` in `[-H, 0)` wraps to row `y + H`. */
  lemma IndexOfIntegralPoint(x: int, y: int, width: nat, height: nat)
    requires 0 <= x < width && -(height as int) <= y < height
    ensures var row := if y >= 0 then y else y + height;
            GetDepthArrayIndexBounded(Finite(x as real), Finite(y as real), width, height) == Some(row * width + x) &&
            GetDepthArrayIndex(Finite(x as real), Finite(y as real), width, height) == Some(row * width + x)
  {
    var row := if y >= 0 then y else y + height;
    RowOfIntegralY(y, height);
    assert Trunc(x as real) == x;
    CellInGrid(row, x, width, height);
    assert RawColorIndex(Finite(x as real), Finite(y as real), width, height) == row * width + x;
  }

  lemma DivUnique(x: real, y: real, b: real)
    requires b > 0.0 && y * b == x
    ensures x / b == y
  {
  }

  /** Entries whose `y` differs by `H` map to the same index (for `y >= 0`): `y` wraps. */
  lemma IndexWrapsInY(xRaw: Single, y: real, width: nat, height: nat)
    requires height > 0 && y >= 0.0
    ensures RawColorIndex(xRaw, Finite(y + height as real), width, height)
            == RawColorIndex(xRaw, Finite(y), width, height)
  {
    FModShift(y + height as real, height as real);
  }

  /** Adding the divisor to a non-negative dividend leaves the float remainder alone. */
  lemma FModShift(a: real, b: real)
    requires a >= 0.0 && b > 0.0
    ensures FMod(a + b, b) == FMod(a, b)
  {
    var q := a / b;
    assert q * b == a;
    assert (q + 1.0) * b == a + b;
    DivUnique(a + b, q + 1.0, b);
    TruncPlusOne(q);
    assert (Trunc(q) + 1) as real * b == Trunc(q) as real * b + b;
  }

  /** For a non-negative value, truncation commutes with adding one. */
  lemma TruncPlusOne(q: real)
    requires q >= 0.0
    ensures Trunc(q + 1.0) == Trunc(q) + 1
  {
  }

  /** An infinite coordinate is read as 0. */
  lemma InfiniteCoordinatesReadAsZero(y: Single, x: Single, width: nat, height: nat)
    requires height > 0
    ensures GetDepthArrayIndex(PositiveInfinity, y, width, height) == GetDepthArrayIndex(Finite(0.0), y, width, height)
    ensures GetDepthArrayIndex(NegativeInfinity, y, width, height) == GetDepthArrayIndex(Finite(0.0), y, width, height)
    ensures GetDepthArrayIndex(x, PositiveInfinity, width, height) == GetDepthArrayIndex(x, Finite(0.0), width, height)
    ensures GetDepthArrayIndex(x, NegativeInfinity, width, height) == GetDepthArrayIndex(x, Finite(0.0), width, height)
  {
  }

  /** The guard as written accepts `W * H`, one past the last colour pixel: the
      point `(W, H - 1)` yields it, and the corrected check rejects it. */
  lemma OnePastEndAccepted(width: nat, height: nat)
    requires width > 0 && height > 0
    ensures GetDepthArrayIndex(Finite(width as real), Finite((height - 1) as real), width, height)
            == Some(width * height)
    ensures GetDepthArrayIndexBounded(Finite(width as real), Finite((height - 1) as real), width, height).None?
  {
    RowOfIntegralY(height - 1, height);
    assert Trunc(width as real) == width;
    assert (height - 1) * width + width == width * height;
  }

  /** The first mapped point for which the index function throws, or `|points|`
      when there is none. */
  function FirstUnmapped(points: seq<ColorSpacePoint>, width: nat, height: nat): (n: nat)
    requires height > 0
    ensures n <= |points|
    ensures forall i :: 0 <= i < n ==> GetDepthArrayIndex(points[i].X, points[i].Y, width, height).Some?
    ensures n < |points| ==> GetDepthArrayIndex(points[n].X, points[n].Y, width, height).None?
  {
    if points == [] then 0
    else if GetDepthArrayIndex(points[0].X, points[0].Y, width, height).None? then 0
    else 1 + FirstUnmapped(points[1..], width, height)
  }

  /** The first entry of an index map that does not address a pixel of a
      `limit`-pixel image, or `|indices|` when there is none. */
  function FirstOutOfRange(indices: seq<int>, limit: int): (n: nat)
    ensures n <= |indices|
    ensures forall i :: 0 <= i < n ==> 0 <= indices[i] < limit
    ensures n < |indices| ==> !(0 <= indices[n] < limit)
  {
    if indices == [] then 0
    else if !(0 <= indices[0] < limit) then 0
    else 1 + FirstOutOfRange(indices[1..], limit)
  }

  /** A scan that stops at `n` stops at the first out-of-range entry. */
  lemma {:induction false} FirstOutOfRangeIs(indices: seq<int>, limit: int, n: nat)
    requires n <= |indices|
    requires forall i :: 0 <= i < n ==> 0 <= indices[i] < limit
    requires n < |indices| ==> !(0 <= indices[n] < limit)
    ensures FirstOutOfRange(indices, limit) == n
  {
    if n > 0 {
      FirstOutOfRangeIs(indices[1..], limit, n - 1);
    }
  }

  // ---------------------------------------------------------------------------
  // The point buffer as the server sends it

  /** One colour sample: the first three bytes of an RGBA pixel. */
  datatype Color = Color(r: byte, g: byte, b: byte)

  /** The five bytes of one pixel: little-endian depth, then R, G, B. */
  function PixelBytes(depth: ushort, c: Color): (p: seq<byte>)
    ensures |p| == 5
  {
    UShortBytes(depth) + [c.r, c.g, c.b]
  }

  /** The whole point buffer, pixel after pixel. */
  function PackedFrame(depths: seq<ushort>, colors: seq<Color>): (p: seq<byte>)
    requires |depths| == |colors|
    ensures |p| == 5 * |depths|
  {
    if depths == [] then [] else PixelBytes(depths[0], colors[0]) + PackedFrame(depths[1..], colors[1..])
  }

  /** Pixel `i` of a packed frame occupies bytes `5i .. 5i+4`: low depth byte,
      high depth byte, R, G, B. */
  lemma {:induction false} PackedFrameAt(depths: seq<ushort>, colors: seq<Color>, i: nat)
    requires |depths| == |colors| && i < |depths|
    ensures PackedFrame(depths, colors)[5 * i] == LowByte(depths[i])
    ensures PackedFrame(depths, colors)[5 * i + 1] == HighByte(depths[i])
    ensures PackedFrame(depths, colors)[5 * i + 2] == colors[i].r
    ensures PackedFrame(depths, colors)[5 * i + 3] == colors[i].g
    ensures PackedFrame(depths, colors)[5 * i + 4] == colors[i].b
  {
    if i > 0 {
      PackedFrameAt(depths[1..], colors[1..], i - 1);
    }
  }

  /** A buffer is the packed frame of `depths` and `colors` exactly when each of its
      five-byte groups holds the matching pixel. */
  lemma PackedFrameCharacterized(p: seq<byte>, depths: seq<ushort>, colors: seq<Color>)
    requires |depths| == |colors| && |p| == 5 * |depths|
    ensures p == PackedFrame(depths, colors) <==>
            forall i :: 0 <= i < |depths| ==> HoldsPixel(p, i, depths[i], colors[i])
  {
    if p == PackedFrame(depths, colors) {
      forall i | 0 <= i < |depths| ensures HoldsPixel(p, i, depths[i], colors[i]) {
        PackedFrameAt(depths, colors, i);
      }
    }
    if forall i :: 0 <= i < |depths| ==> HoldsPixel(p, i, depths[i], colors[i]) {
      PixelsDeterminePackedFrame(p, depths, colors);
    }
  }

  lemma {:induction false} PixelsDeterminePackedFrame(p: seq<byte>, depths: seq<ushort>, colors: seq<Color>)
    requires |depths| == |colors| && |p| == 5 * |depths|
    requires forall i :: 0 <= i < |depths| ==> HoldsPixel(p, i, depths[i], colors[i])
    ensures p == PackedFrame(depths, colors)
  {
    if depths != [] {
      var tail := p[5..];
      forall i | 0 <= i < |depths| - 1
        ensures HoldsPixel(tail, i, depths[1..][i], colors[1..][i])
      {
        assert HoldsPixel(p, i + 1, depths[i + 1], colors[i + 1]);
      }
      PixelsDeterminePackedFrame(tail, depths[1..], colors[1..]);
      assert HoldsPixel(p, 0, depths[0], colors[0]);
      assert p[..5] == PixelBytes(depths[0], colors[0]);
      assert p == p[..5] + tail;
    }
  }

  /** Bytes `5i .. 5i+4` of `p` hold the given depth and colour. */
  ghost predicate HoldsPixel(p: seq<byte>, i: nat, depth: ushort, c: Color)
    requires 5 * i + 5 <= |p|
  {
    p[5 * i] == LowByte(depth) && p[5 * i + 1] == HighByte(depth) &&
    p[5 * i + 2] == c.r && p[5 * i + 3] == c.g && p[5 * i + 4] == c.b
  }

  /** Some point maps to `W * H`, one past the last colour pixel. */
  ghost predicate MapsOnePastEnd(points: seq<ColorSpacePoint>, width: nat, height: nat)
    requires height > 0
  {
    exists j :: 0 <= j < |points| && GetDepthArrayIndex(points[j].X, points[j].Y, width, height) == Some(width * height)
  }

  /** An index map built by the guard as written from points one of which maps to
      `W * H` has an entry outside the `W * H`-pixel colour image. */
  lemma OnePastEndFailsColorPass(points: seq<ColorSpacePoint>, indices: seq<int>, width: nat, height: nat)
    requires height > 0 && |indices| == |points|
    requires FirstUnmapped(points, width, height) == |points|
    requires forall i :: 0 <= i < |points| ==> Some(indices[i]) == GetDepthArrayIndex(points[i].X, points[i].Y, width, height)
    requires MapsOnePastEnd(points, width, height)
    ensures FirstOutOfRange(indices, width * height) < |indices|
  {
    var j :| 0 <= j < |points| && GetDepthArrayIndex(points[j].X, points[j].Y, width, height) == Some(width * height);
    assert indices[j] == width * height;
  }

  /** The colour each depth pixel takes from an RGBA image through an index map:
      the first three bytes of the pixel the map names. */
  function SampledColors(image: seq<byte>, indices: seq<int>): (colors: seq<Color>)
    requires forall i :: 0 <= i < |indices| ==> 0 <= indices[i] && 4 * indices[i] + 2 < |image|
    ensures |colors| == |indices|
  {
    seq(|indices|, i requires 0 <= i < |indices| =>
      Color(image[4 * indices[i]], image[4 * indices[i] + 1], image[4 * indices[i] + 2]))
  }

  /** A buffer whose depth slots hold the depths' bytes and whose colour slots hold
      the first three bytes of the mapped colour pixels, as the two passes leave it,
      is the packed frame of the depths and the sampled colours. */
  lemma PassesPackFrame(p: seq<byte>, depths: seq<ushort>, image: seq<byte>, indices: seq<int>)
    requires |indices| == |depths| && |p| == 5 * |depths|
    requires forall i :: 0 <= i < |indices| ==> 0 <= indices[i] && 4 * indices[i] + 2 < |image|
    requires forall i :: 0 <= i < |depths| ==> p[5 * i] == LowByte(depths[i]) && p[5 * i + 1] == HighByte(depths[i])
    requires forall i :: 0 <= i < |indices| ==>
               p[5 * i + 2] == image[4 * indices[i]] && p[5 * i + 3] == image[4 * indices[i] + 1] &&
               p[5 * i + 4] == image[4 * indices[i] + 2]
    ensures p == PackedFrame(depths, SampledColors(image, indices))
  {
    var colors := SampledColors(image, indices);
    forall i | 0 <= i < |depths|
      ensures HoldsPixel(p, i, depths[i], colors[i])
    {
    }
    PixelsDeterminePackedFrame(p, depths, colors);
  }

  /** The depth pass leaves the depth slots holding the depths; the colour pass,
      run to the end of the index map, keeps those slots and fills every colour
      slot: the result is the packed frame. */
  lemma PassesAfterEachOther(before: seq<byte>, afterDepth: seq<byte>, p: seq<byte>, depths: seq<ushort>,
                             image: seq<byte>, indices: seq<int>)
    requires |indices| == |depths|
    requires DepthsWrittenUpTo(afterDepth, before, depths, |depths|)
    requires ColorsCopiedUpTo(p, afterDepth, image, indices, |indices|)
    ensures forall i :: 0 <= i < |indices| ==> 0 <= indices[i] && 4 * indices[i] + 2 < |image|
    ensures p == PackedFrame(depths, SampledColors(image, indices))
  {
    PassesPackFrame(p, depths, image, indices);
  }

  /** After the first `i` iterations of the depth loop over `before`: pixels below
      `i` hold their depth's two bytes, and every colour byte is as it was. */
  ghost predicate DepthsWrittenUpTo(p: seq<byte>, before: seq<byte>, depths: seq<ushort>, i: nat)
  {
    && |p| == |before| && 5 * |depths| <= |p| && i <= |depths|
    && (forall j :: 0 <= j < i ==> p[5 * j] == LowByte(depths[j]) && p[5 * j + 1] == HighByte(depths[j]))
    && (forall j :: 0 <= j < |depths| ==>
          p[5 * j + 2] == before[5 * j + 2] && p[5 * j + 3] == before[5 * j + 3] && p[5 * j + 4] == before[5 * j + 4])
  }

  /** One more iteration of the depth loop, writing pixel `i`'s two depth bytes,
      extends the written prefix by one pixel. */
  lemma DepthWriteStep(p0: seq<byte>, p1: seq<byte>, before: seq<byte>, depths: seq<ushort>, i: nat)
    requires DepthsWrittenUpTo(p0, before, depths, i) && i < |depths|
    requires p1 == p0[5 * i := LowByte(depths[i])][5 * i + 1 := HighByte(depths[i])]
    ensures DepthsWrittenUpTo(p1, before, depths, i + 1)
  {
  }

  /** After the first `i` iterations of the colour pass over `before`: pixels below
      `i` hold the R, G, B of their mapped colour pixel and their old depth bytes,
      and every byte from `5i` on is as it was. */
  ghost predicate ColorsCopiedUpTo(p: seq<byte>, before: seq<byte>, image: seq<byte>, indices: seq<int>, i: nat)
  {
    && |p| == |before| == 5 * |indices| && i <= |indices|
    && (forall j :: 0 <= j < i ==> 0 <= indices[j] && 4 * indices[j] + 2 < |image|)
    && (forall j :: 0 <= j < i ==>
          p[5 * j + 2] == image[4 * indices[j]] && p[5 * j + 3] == image[4 * indices[j] + 1] &&
          p[5 * j + 4] == image[4 * indices[j] + 2])
    && (forall j :: 0 <= j < i ==> p[5 * j] == before[5 * j] && p[5 * j + 1] == before[5 * j + 1])
    && (forall k :: 5 * i <= k < |p| ==> p[k] == before[k])
  }

  /** One more iteration of the colour pass extends the copied prefix by one pixel. */
  lemma CopyColorStep(p0: seq<byte>, p1: seq<byte>, before: seq<byte>, image: seq<byte>, indices: seq<int>, i: nat)
    requires ColorsCopiedUpTo(p0, before, image, indices, i) && i < |indices|
    requires 0 <= indices[i] && 4 * indices[i] + 2 < |image| && |p1| == |p0|
    requires p1[5 * i + 2] == image[4 * indices[i]] && p1[5 * i + 3] == image[4 * indices[i] + 1]
    requires p1[5 * i + 4] == image[4 * indices[i] + 2]
    requires forall k :: 0 <= k < |p1| && (k < 5 * i + 2 || 5 * i + 5 <= k) ==> p1[k] == p0[k]
    ensures ColorsCopiedUpTo(p1, before, image, indices, i + 1)
  {
    forall j | 0 <= j < i
      ensures p1[5 * j + 2] == p0[5 * j + 2] && p1[5 * j + 3] == p0[5 * j + 3] && p1[5 * j + 4] == p0[5 * j + 4]
      ensures p1[5 * j] == p0[5 * j] && p1[5 * j + 1] == p0[5 * j + 1]
    {
    }
  }

  /** The capture window's buffers and the two per-frame passes that fill them. */
  class MainWindow {
    const depthWidth: nat
    const depthHeight: nat
    const colorWidth: nat
    const colorHeight: nat
    /** `depthWidth * depthHeight`. */
    const depthPointCount: nat
    /** `colorWidth * colorHeight`. */
    const colorPointCount: nat

    /** Grey level per depth pixel, for display. */
    var depthPixels: array<byte>
    /** Depth frame mapped into colour space, as the coordinate mapper produced it. */
    var colorSpacePoints: array<ColorSpacePoint>
    /** The colour frame, 4 bytes (RGBA) per colour pixel. */
    var allColorPixels: array<byte>
    /** The buffer sent to clients: 5 bytes per depth pixel. */
    var pointData: array<byte>
    /** For each depth pixel, the colour pixel it samples. */
    var depthIndexToColorIndex: array<int>

    ghost predicate Valid()
      reads this
    {
      && colorWidth > 0 && colorHeight > 0
      && depthPixels.Length == depthPointCount
      && colorSpacePoints.Length == depthPointCount
      && depthIndexToColorIndex.Length == depthPointCount
      && pointData.Length == depthPointCount * 5
      && allColorPixels.Length == colorPointCount * 4
      && colorPointCount == colorWidth * colorHeight
      && pointData != depthPixels && pointData != allColorPixels && depthPixels != allColorPixels
    }

    /** Every entry of the index map lies in `[0, W * H]`, the range the index
        function's guard lets through. */
    ghost predicate MapBounded()
      reads this, depthIndexToColorIndex
    {
      forall i :: 0 <= i < depthIndexToColorIndex.Length ==>
        0 <= depthIndexToColorIndex[i] <= colorPointCount
    }

    /** Every entry of the index map addresses a pixel of the colour image. */
    ghost predicate MapInRange()
      reads this, depthIndexToColorIndex
    {
      forall i :: 0 <= i < depthIndexToColorIndex.Length ==>
        0 <= depthIndexToColorIndex[i] < colorPointCount
    }

    /** Buffer sizing in the window's constructor; every array is zero-filled, so the
        initial index map points at colour pixel 0. */
    constructor (depthWidth: nat, depthHeight: nat, colorWidth: nat, colorHeight: nat)
      requires colorWidth > 0 && colorHeight > 0
      ensures Valid() && MapInRange() && MapBounded()
      ensures this.depthWidth == depthWidth && this.depthHeight == depthHeight
      ensures this.colorWidth == colorWidth && this.colorHeight == colorHeight
      ensures depthPointCount == depthWidth * depthHeight && colorPointCount == colorWidth * colorHeight
      ensures fresh(depthPixels) && fresh(colorSpacePoints) && fresh(allColorPixels)
      ensures fresh(pointData) && fresh(depthIndexToColorIndex)
      ensures forall j :: 0 <= j < pointData.Length ==> pointData[j] == 0
    {
      this.depthWidth, this.depthHeight := depthWidth, depthHeight;
      this.colorWidth, this.colorHeight := colorWidth, colorHeight;
      var n, c := depthWidth * depthHeight, colorWidth * colorHeight;
      depthPointCount, colorPointCount := n, c;
      depthPixels := new byte[n](_ => 0);
      colorSpacePoints := new ColorSpacePoint[n](_ => ColorSpacePoint(Finite(0.0), Finite(0.0)));
      allColorPixels := new byte[c * 4](_ => 0);
      pointData := new byte[n * 5](_ => 0);
      depthIndexToColorIndex := new int[n](_ => 0);
    }

    /** The depth pass: for each pixel the grey level and the two depth bytes, then
        the colour-space points from the mapper and the index map built from them.
        `ok == false` stands for the exception the index function throws; entries
        before the failing point are already updated. */
    method ProcessDepthFrameData(frameData: seq<ushort>, minDepth: ushort, maxDepth: ushort,
                                 mapped: seq<ColorSpacePoint>) returns (ok: bool)
      requires Valid()
      requires |frameData| == depthPixels.Length
      requires |mapped| == colorSpacePoints.Length
      modifies depthPixels, pointData, colorSpacePoints, depthIndexToColorIndex
      ensures Valid()
      ensures forall i :: 0 <= i < |frameData| ==>
                depthPixels[i] == DepthToGrey(frameData[i], minDepth, maxDepth)
      ensures DepthsWrittenUpTo(pointData[..], old(pointData[..]), frameData, |frameData|)
      ensures colorSpacePoints[..] == mapped
      ensures ok <==> FirstUnmapped(mapped, colorWidth, colorHeight) == |mapped|
      ensures forall i :: 0 <= i < FirstUnmapped(mapped, colorWidth, colorHeight) ==>
                Some(depthIndexToColorIndex[i]) == GetDepthArrayIndex(mapped[i].X, mapped[i].Y, colorWidth, colorHeight)
      ensures forall i :: FirstUnmapped(mapped, colorWidth, colorHeight) <= i < |mapped| ==>
                depthIndexToColorIndex[i] == old(depthIndexToColorIndex[i])
      ensures old(MapBounded()) ==> MapBounded()
    {
      WriteDepthPixels(frameData, minDepth, maxDepth);
      // The coordinate mapper fills colorSpacePoints.
      forall k | 0 <= k < colorSpacePoints.Length {
        colorSpacePoints[k] := mapped[k];
      }
      ok := MapDepthToColorIndices();
    }

    /** The first loop of the depth pass: grey level and depth bytes per pixel. */
    method WriteDepthPixels(frameData: seq<ushort>, minDepth: ushort, maxDepth: ushort)
      requires Valid()
      requires |frameData| == depthPixels.Length
      modifies depthPixels, pointData
      ensures DepthsWrittenUpTo(pointData[..], old(pointData[..]), frameData, |frameData|)
      ensures forall i :: 0 <= i < |frameData| ==>
                depthPixels[i] == DepthToGrey(frameData[i], minDepth, maxDepth)
    {
      ghost var before := pointData[..];
      for i := 0 to |frameData|
        invariant forall j :: 0 <= j < i ==> depthPixels[j] == DepthToGrey(frameData[j], minDepth, maxDepth)
        invariant DepthsWrittenUpTo(pointData[..], before, frameData, i)
      {
        var depth := frameData[i];
        depthPixels[i] := DepthToGrey(depth, minDepth, maxDepth);
        var depthBytes := UShortBytes(depth);
        ghost var p0 := pointData[..];
        pointData[i * 5] := depthBytes[0];
        pointData[i * 5 + 1] := depthBytes[1];
        DepthWriteStep(p0, pointData[..], before, frameData, i);
      }
    }

    /** The second loop of the depth pass: the index map from the colour-space points. */
    method MapDepthToColorIndices() returns (ok: bool)
      requires Valid()
      modifies depthIndexToColorIndex
      ensures ok <==> FirstUnmapped(colorSpacePoints[..], colorWidth, colorHeight) == colorSpacePoints.Length
      ensures forall i :: 0 <= i < FirstUnmapped(colorSpacePoints[..], colorWidth, colorHeight) ==>
                Some(depthIndexToColorIndex[i]) ==
                GetDepthArrayIndex(colorSpacePoints[i].X, colorSpacePoints[i].Y, colorWidth, colorHeight)
      ensures forall i :: FirstUnmapped(colorSpacePoints[..], colorWidth, colorHeight) <= i < colorSpacePoints.Length ==>
                depthIndexToColorIndex[i] == old(depthIndexToColorIndex[i])
      ensures old(MapBounded()) ==> MapBounded()
    {
      ghost var points := colorSpacePoints[..];
      ghost var n := FirstUnmapped(points, colorWidth, colorHeight);
      var i := 0;
      while i < colorSpacePoints.Length
        invariant i <= n
        invariant forall j :: 0 <= j < i ==>
                    Some(depthIndexToColorIndex[j]) == GetDepthArrayIndex(points[j].X, points[j].Y, colorWidth, colorHeight)
        invariant forall j :: i <= j < |points| ==> depthIndexToColorIndex[j] == old(depthIndexToColorIndex[j])
        invariant old(MapBounded()) ==> MapBounded()
      {
        var colorSpacePoint := colorSpacePoints[i];
        var colorArrayIndex := GetDepthArrayIndex(colorSpacePoint.X, colorSpacePoint.Y, colorWidth, colorHeight);
        if colorArrayIndex.None? {
          return false;
        }
        depthIndexToColorIndex[i] := colorArrayIndex.value;
        i := i + 1;
      }
      return true;
    }

    /** The colour pass: the colour frame is copied into `allColorPixels`, then each
        depth pixel's R, G, B are taken from the colour pixel the index map names;
        the alpha byte is never copied. `ok == false` stands for the
        index-out-of-range exception of an entry outside the colour image, raised
        before anything of that pixel is written. */
    method ProcessColorFrame(colorImage: seq<byte>) returns (ok: bool)
      requires Valid()
      requires |colorImage| == allColorPixels.Length
      modifies allColorPixels, pointData
      ensures Valid()
      ensures allColorPixels[..] == colorImage
      ensures ok <==> MapInRange()
      ensures ok <==> FirstOutOfRange(depthIndexToColorIndex[..], colorPointCount) == depthIndexToColorIndex.Length
      ensures ColorsCopiedUpTo(pointData[..], old(pointData[..]), colorImage, depthIndexToColorIndex[..],
                               FirstOutOfRange(depthIndexToColorIndex[..], colorPointCount))
    {
      ghost var before := pointData[..];
      // CopyConvertedFrameDataToArray fills allColorPixels.
      forall k | 0 <= k < allColorPixels.Length {
        allColorPixels[k] := colorImage[k];
      }
      assert allColorPixels[..] == colorImage && pointData[..] == before;
      ok := SampleColors();
    }

    /** The loop of the colour pass, over the colour image already in `allColorPixels`. */
    method SampleColors() returns (ok: bool)
      requires Valid()
      modifies pointData
      ensures ok <==> MapInRange()
      ensures ok <==> FirstOutOfRange(depthIndexToColorIndex[..], colorPointCount) == depthIndexToColorIndex.Length
      ensures ColorsCopiedUpTo(pointData[..], old(pointData[..]), allColorPixels[..], depthIndexToColorIndex[..],
                               FirstOutOfRange(depthIndexToColorIndex[..], colorPointCount))
    {
      var i := CopyColorsWhileInRange();
      FirstOutOfRangeIs(depthIndexToColorIndex[..], colorPointCount, i);
      ok := i == colorSpacePoints.Length;
    }

    /** The loop of the colour pass. It stops at the first depth pixel whose map
        entry would make reading the colour image throw, and reports where. */
    method CopyColorsWhileInRange() returns (i: nat)
      requires Valid()
      modifies pointData
      ensures i <= depthIndexToColorIndex.Length
      ensures ColorsCopiedUpTo(pointData[..], old(pointData[..]), allColorPixels[..], depthIndexToColorIndex[..], i)
      ensures forall j :: 0 <= j < i ==> 0 <= depthIndexToColorIndex[j] < colorPointCount
      ensures i < depthIndexToColorIndex.Length ==> !(0 <= depthIndexToColorIndex[i] < colorPointCount)
    {
      ghost var indices := depthIndexToColorIndex[..];
      ghost var image := allColorPixels[..];
      ghost var before := pointData[..];
      i := 0;
      // The loop stops where reading the colour image would throw.
      while i < colorSpacePoints.Length && 0 <= depthIndexToColorIndex[i] &&
            depthIndexToColorIndex[i] * 4 < allColorPixels.Length
        invariant i <= |indices|
        invariant forall j :: 0 <= j < i ==> 0 <= indices[j] < colorPointCount
        invariant ColorsCopiedUpTo(pointData[..], before, image, indices, i)
      {
        var colorPixelIndex := depthIndexToColorIndex[i];
        ghost var p0 := pointData[..];
        CopyColor(i, colorPixelIndex);
        CopyColorStep(p0, pointData[..], before, image, indices, i);
        i := i + 1;
      }
      assert indices == depthIndexToColorIndex[..] && image == allColorPixels[..];
    }

    /** One iteration of the colour pass: R, G, B of colour pixel `c` into the
        colour slots of point `i`, nothing else touched. */
    method CopyColor(i: nat, c: nat)
      requires Valid()
      requires i < depthPointCount && c < colorPointCount
      modifies pointData
      ensures pointData[5 * i + 2] == allColorPixels[4 * c]
      ensures pointData[5 * i + 3] == allColorPixels[4 * c + 1]
      ensures pointData[5 * i + 4] == allColorPixels[4 * c + 2]
      ensures forall k :: 0 <= k < pointData.Length && (k < 5 * i + 2 || 5 * i + 5 <= k) ==>
                pointData[k] == old(pointData[k])
    {
      pointData[i * 5 + 2] := allColorPixels[c * 4];
      pointData[i * 5 + 3] := allColorPixels[c * 4 + 1];
      pointData[i * 5 + 4] := allColorPixels[c * 4 + 2];
    }

    /** A depth frame followed by a colour frame, each handled by its pass. When both
        passes complete, the point buffer is the packed frame of the depths and of the
        colours sampled through the index map. A point the index function maps to
        `W * H` passes the depth pass, and then makes the colour pass fail. */
    method ProcessFramePair(frameData: seq<ushort>, minDepth: ushort, maxDepth: ushort,
                            mapped: seq<ColorSpacePoint>, colorImage: seq<byte>)
      returns (depthOk: bool, colorOk: bool)
      requires Valid()
      requires |frameData| == depthPixels.Length && |mapped| == colorSpacePoints.Length
      requires |colorImage| == allColorPixels.Length
      modifies depthPixels, pointData, colorSpacePoints, depthIndexToColorIndex, allColorPixels
      ensures Valid()
      ensures forall i :: 0 <= i < |frameData| ==>
                depthPixels[i] == DepthToGrey(frameData[i], minDepth, maxDepth)
      ensures colorSpacePoints[..] == mapped && allColorPixels[..] == colorImage
      ensures depthOk <==> FirstUnmapped(mapped, colorWidth, colorHeight) == |mapped|
      ensures depthOk ==> forall i :: 0 <= i < |mapped| ==>
                Some(depthIndexToColorIndex[i]) == GetDepthArrayIndex(mapped[i].X, mapped[i].Y, colorWidth, colorHeight)
      ensures colorOk <==> MapInRange()
      ensures depthOk && colorOk ==>
                pointData[..] == PackedFrame(frameData, SampledColors(colorImage, depthIndexToColorIndex[..]))
      ensures depthOk && MapsOnePastEnd(mapped, colorWidth, colorHeight) ==> !colorOk
    {
      ghost var before := pointData[..];
      depthOk := ProcessDepthFrameData(frameData, minDepth, maxDepth, mapped);
      ghost var afterDepth := pointData[..];
      colorOk := ProcessColorFrame(colorImage);
      if depthOk && colorOk {
        PassesAfterEachOther(before, afterDepth, pointData[..], frameData, colorImage, depthIndexToColorIndex[..]);
      }
      if depthOk && MapsOnePastEnd(mapped, colorWidth, colorHeight) {
        OnePastEndFailsColorPass(mapped, depthIndexToColorIndex[..], colorWidth, colorHeight);
      }
    }

    /** The getter handed to the server returns the buffer itself, not a copy. */
    method GetPointDataForNetwork() returns (data: array<byte>)
      ensures data == pointData
    {
      data := pointData;
    }
  }

  // ---------------------------------------------------------------------------
  // The calibration table on the wire

  /** One calibration entry: the bit patterns of its X and Y floats. */
  datatype PointF = PointF(X: FloatBits, Y: FloatBits)

  /** Eight bytes per entry, X's four bytes followed by Y's. */
  function EncodeTable(table: seq<PointF>): (r: seq<byte>)
    ensures |r| == 8 * |table|
  {
    if table == [] then [] else FloatBytes(table[0].X) + FloatBytes(table[0].Y) + EncodeTable(table[1..])
  }

  /** Reads eight-byte groups back into entries. */
  function DecodeTable(bytes: seq<byte>): (table: seq<PointF>)
    requires |bytes| % 8 == 0
    ensures 8 * |table| == |bytes|
  {
    if bytes == [] then []
    else [PointF(FloatFromBytes(bytes[..4]), FloatFromBytes(bytes[4..8]))] + DecodeTable(bytes[8..])
  }

  /** Entry `i`'s X bytes sit at `[8i, 8i+4)` and its Y bytes at `[8i+4, 8i+8)`. */
  lemma {:induction false} EncodeTableAt(table: seq<PointF>, i: nat, k: nat)
    requires i < |table| && k < 4
    ensures EncodeTable(table)[8 * i + k] == FloatBytes(table[i].X)[k]
    ensures EncodeTable(table)[8 * i + 4 + k] == FloatBytes(table[i].Y)[k]
  {
    if i > 0 {
      EncodeTableAt(table[1..], i - 1, k);
    }
  }

  /** Decoding the serialised table recovers every entry bit for bit. */
  lemma {:induction false} DecodeEncodeTable(table: seq<PointF>)
    ensures DecodeTable(EncodeTable(table)) == table
  {
    if table != [] {
      var e := EncodeTable(table);
      assert e[..4] == FloatBytes(table[0].X);
      assert e[4..8] == FloatBytes(table[0].Y);
      assert e[8..] == EncodeTable(table[1..]);
      DecodeEncodeTable(table[1..]);
    }
  }

  /** Every multiple of eight bytes is the serialisation of some table: encoding
      the decoded table gives the bytes back. */
  lemma {:induction false} EncodeDecodeTable(bytes: seq<byte>)
    requires |bytes| % 8 == 0
    ensures EncodeTable(DecodeTable(bytes)) == bytes
  {
    if bytes != [] {
      FloatBytesOfFromBytes(bytes[..4]);
      FloatBytesOfFromBytes(bytes[4..8]);
      EncodeDecodeTable(bytes[8..]);
      var t := DecodeTable(bytes);
      assert t[1..] == DecodeTable(bytes[8..]);
      assert bytes == bytes[..4] + bytes[4..8] + bytes[8..];
    }
  }

  /** Serialising a concatenation concatenates the serialisations. */
  lemma {:induction false} EncodeTableAppend(a: seq<PointF>, b: seq<PointF>)
    ensures EncodeTable(a + b) == EncodeTable(a) + EncodeTable(b)
  {
    if a == [] {
      assert a + b == b;
    } else {
      assert (a + b)[0] == a[0];
      assert (a + b)[1..] == a[1..] + b;
      EncodeTableAppend(a[1..], b);
    }
  }

  /** The serialisation of the first `i + 1` entries extends that of the first `i`
      by entry `i`'s X and Y bytes. */
  lemma EncodeTableExtend(table: seq<PointF>, i: nat)
    requires i < |table|
    ensures EncodeTable(table[..i + 1]) == EncodeTable(table[..i]) + FloatBytes(table[i].X) + FloatBytes(table[i].Y)
  {
    var tablePoint := table[i];
    assert [tablePoint][1..] == [];
    assert EncodeTable([tablePoint]) == FloatBytes(tablePoint.X) + FloatBytes(tablePoint.Y);
    EncodeTableAppend(table[..i], [tablePoint]);
    assert table[..i + 1] == table[..i] + [tablePoint];
  }

  /** `GetDepthTableForNetwork`: a fresh array of `8 * |table|` bytes holding the
      serialised table. */
  method GetDepthTableForNetwork(table: seq<PointF>) returns (ret: array<byte>)
    ensures fresh(ret)
    ensures ret.Length == |table| * 8
    ensures ret[..] == EncodeTable(table)
  {
    var byteStride := 4 * 2;
    ret := new byte[|table| * byteStride](_ => 0);
    for i := 0 to |table|
      invariant ret[..8 * i] == EncodeTable(table[..i])
    {
      var tablePoint := table[i];
      var xIndex := i * byteStride;
      var yIndex := xIndex + 4;
      ghost var done := ret[..xIndex];
      CopyBytes(FloatBytes(tablePoint.X), ret, xIndex);
      assert ret[..yIndex] == done + FloatBytes(tablePoint.X);
      CopyBytes(FloatBytes(tablePoint.Y), ret, yIndex);
      assert ret[..yIndex + 4] == done + FloatBytes(tablePoint.X) + FloatBytes(tablePoint.Y);
      EncodeTableExtend(table, i);
    }
    assert table[..|table|] == table;
  }
}
