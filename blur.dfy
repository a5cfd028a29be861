/** The separable blur `blurARGB` of ocr.js (ported from p5.js), whose kernel is
    a squared triangle (tap k weighs (R - |k - R|)^2):
    the buffer is packed into A|R|G|B words, a horizontal pass writes one plane
    per channel, and a vertical pass over those planes writes the packed result,
    which is unpacked back into the buffer.

    A pass sums `weight * value` over the taps of a window and divides by the sum
    of the weights it used. Both the float quotient and its ToInt32 are
    nonnegative, and the float division of two integers below 2^53 cannot round
    across an integer, so each stored value is the integer quotient.
 */
module Blur {
  import opened PixelCodec
  import opened BlurKernel

  /* ---------- arithmetic helpers ---------- */

  lemma MulMonotone(a: int, b: int, c: int)
    requires a <= b && 0 <= c
    ensures a * c <= b * c
  {
    assert b * c - a * c == (b - a) * c;
  }

  lemma MulDistributes(c: int, a: int, b: int)
    ensures c * (a + b) == a * c + b * c
  {
  }

  /** Row `y` of a grid of width `w` and height `h` starts at `y * w`. */
  lemma FlatIndexBound(y: int, x: int, w: int, h: int)
    requires 0 <= y < h && 0 <= x < w
    ensures 0 <= y * w && y * w + x < w * h
  {
    RowBound(y, w, h);
  }

  /** Row `y` of a grid of width `w` and height `h` ends by `w * h`. */
  lemma RowBound(y: int, w: int, h: int)
    requires 0 <= y < h && 0 <= w
    ensures 0 <= y * w && y * w + w <= w * h
  {
    MulMonotone(0, y, w);
    MulMonotone(y + 1, h, w);
  }

  /** The offset of row `row` in a grid of width `w`, counted up a row at a time,
      as the vertical pass advances its read position. */
  function RowStart(row: nat, w: nat): int
  {
    if row == 0 then 0 else RowStart(row - 1, w) + w
  }

  /** `RowStart` is the product `row * w`. */
  lemma {:induction false} RowStartIs(row: nat, w: nat)
    ensures RowStart(row, w) == row * w
  {
    if row > 0 {
      RowStartIs(row - 1, w);
    }
  }

  /** Index `k` of a grid of width `w` and height `h` is cell (k / w, k % w). */
  lemma FlatIndexSplit(k: int, w: int, h: int)
    requires 0 <= k < w * h && 0 <= w
    ensures 0 < w && 0 <= k / w < h && 0 <= k % w < w && k == (k / w) * w + k % w
  {
    if w == 0 {
      assert false;
    }
    var y := k / w;
    assert k == y * w + k % w;
    if y >= h {
      MulMonotone(h, y, w);
      assert false;
    }
  }

  /** `s` is `orig` with the first `x` entries of row `e`, which starts at `yi`,
      written over it, and nothing else changed. */
  ghost predicate RowWritten<T>(s: seq<T>, orig: seq<T>, yi: nat, x: nat, e: seq<T>)
  {
    && |s| == |orig| && yi + x <= |s| && x <= |e|
    && s[..yi] == orig[..yi] && s[yi..yi + x] == e[..x] && s[yi + x..] == orig[yi + x..]
  }

  /** Writing entry `x` of row `e` extends the part of the row already written. */
  lemma RowWrite<T>(s: seq<T>, orig: seq<T>, yi: nat, x: nat, v: T, e: seq<T>)
    requires RowWritten(s, orig, yi, x, e) && yi + x < |s| && x < |e| && v == e[x]
    ensures RowWritten(s[yi + x := v], orig, yi, x + 1, e)
  {
    assert s[yi + x := v][yi..yi + x + 1] == s[yi..yi + x] + [v];
  }

  /** A prefix of `s` followed by the next `w` entries is a longer prefix. */
  lemma PrefixGrows<T>(s: seq<T>, i: nat, w: nat)
    requires i + w <= |s|
    ensures s[..i + w] == s[..i] + s[i..i + w]
  {
  }

  function Min(a: int, b: int): int
  {
    if a < b then a else b
  }

  /* ---------- grids, planes and windows ---------- */

  /** A row-major grid of `h` rows of `w` cells, cell (y, x) holding `f(y, x)`:
      the layout of `argb`, `a2`, `r2`, `g2` and `b2`, where pixel (x, y) sits
      at index `x + y * width`. */
  function Grid<T>(w: nat, h: nat, f: (nat, nat) -> T): (g: seq<T>)
    ensures |g| == w * h
  {
    if h == 0 then [] else Grid(w, h - 1, f) + seq(w, x requires 0 <= x < w => f(h - 1, x))
  }

  /** Cell (y, x) of a grid is at index `y * w + x`. */
  lemma {:induction false} GridAt<T>(w: nat, h: nat, f: (nat, nat) -> T, y: nat, x: nat)
    requires y < h && x < w
    ensures y * w + x < w * h
    ensures Grid(w, h, f)[y * w + x] == f(y, x)
  {
    FlatIndexBound(y, x, w, h);
    var front := Grid(w, h - 1, f);
    assert |front| == (h - 1) * w;
    if y < h - 1 {
      FlatIndexBound(y, x, w, h - 1);
      GridAt(w, h - 1, f, y, x);
    } else {
      assert y * w + x == |front| + x;
    }
  }

  /** One channel of every packed word: the `(c & mask) >> shift` reads of the
      horizontal pass. */
  function Plane(words: seq<Word>, ch: Channel): (plane: seq<Byte>)
    ensures |plane| == |words|
    ensures forall j :: 0 <= j < |words| ==> plane[j] == ChannelOf(words[j], ch)
  {
    seq(|words|, j requires 0 <= j < |words| => ChannelOf(words[j], ch))
  }

  /** Entry `k` of a plane; a position outside the plane contributes nothing (the
      passes never read one). */
  function PlaneAt(plane: seq<Byte>, k: int): Byte
  {
    if 0 <= k < |plane| then plane[k] else 0
  }

  /** The sum of the kernel weights of taps `i` .. `hi - 1`. */
  function WeightSum(R: int, i: int, hi: int): (total: int)
    requires 1 <= R
    ensures 0 <= total
    decreases hi - i
  {
    if i >= hi then 0 else KernelWeight(R, i) + WeightSum(R, i + 1, hi)
  }

  lemma MulByteBound(wt: int, v: Byte)
    requires 0 <= wt
    ensures 0 <= wt * v <= 255 * wt
  {
    MulMonotone(0, v, wt);
    MulMonotone(v, 255, wt);
  }

  /** The weighted sum of taps `i` .. `hi - 1`, tap `i` reading the plane at
      `pos` and each later tap `stride` further on. */
  function TapSum(R: int, plane: seq<Byte>, pos: int, stride: int, i: int, hi: int): int
    requires 1 <= R
    decreases hi - i
  {
    if i >= hi then 0
    else KernelWeight(R, i) * PlaneAt(plane, pos) + TapSum(R, plane, pos + stride, stride, i + 1, hi)
  }

  /** A weighted sum of bytes lies between 0 and 255 times the weights summed. */
  lemma {:induction false} TapSumBound(R: int, plane: seq<Byte>, pos: int, stride: int, i: int, hi: int)
    requires 1 <= R
    ensures 0 <= TapSum(R, plane, pos, stride, i, hi) <= 255 * WeightSum(R, i, hi)
    decreases hi - i
  {
    if i < hi {
      TapSumBound(R, plane, pos + stride, stride, i + 1, hi);
      MulByteBound(KernelWeight(R, i), PlaneAt(plane, pos));
    }
  }

  /** The channel value stored for a weighted sum `total` over weights summing to
      `weight`: the truncated quotient, and 0 when no weight was summed (`0 / 0`
      is NaN, which `<<` turns into 0). */
  function Average(total: int, weight: int): (v: Byte)
    requires 0 <= total <= 255 * weight
    ensures weight > 0 ==> v * weight <= total < (v + 1) * weight
    ensures weight == 0 ==> v == 0
  {
    if weight == 0 then 0
    else
      QuotientBounds(total, weight);
      total / weight
  }

  /** The integer quotient of a sum of at most 255 per unit of weight. */
  lemma QuotientBounds(total: int, weight: int)
    requires 0 <= total <= 255 * weight && 0 < weight
    ensures 0 <= total / weight <= 255
    ensures (total / weight) * weight <= total < (total / weight + 1) * weight
  {
    var q := total / weight;
    assert q * weight <= total < (q + 1) * weight;
    if q > 255 {
      MulMonotone(256, q, weight);
    }
  }

  /** Averaging a constant gives the constant back. */
  lemma AverageConstant(c: Byte, weight: int)
    requires 0 < weight
    ensures 0 <= c * weight <= 255 * weight
    ensures Average(c * weight, weight) == c
  {
    MulByteBound(weight, c);
    var v := Average(c * weight, weight);
    if v < c {
      MulMonotone(v + 1, c, weight);
    } else if v > c {
      MulMonotone(c + 1, v, weight);
    }
  }

  /** Where a pass reads for one output: tap `lo` reads the plane at `start`,
      and taps `lo` .. `hi - 1` are summed. */
  datatype Window = Window(start: int, lo: int, hi: int)

  /** The horizontal window of pixel `x` of the row starting at `yi`: tap `i`
      reads column x - R + i, from tap R - x when that column would be negative,
      and the loop stops at the kernel size or at the first column past the
      row. */
  function HWindow(R: int, w: int, yi: int, x: int): Window
  {
    var lo := if x < R then R - x else 0;
    Window(yi + x - R + lo, lo, Min(2 * R + 2, w - x + R))
  }

  /** The vertical window of pixel (x, y). For y >= R tap `i` reads row
      y - R + i and the loop stops at the first row past the image. For y < R
      reading starts at row 0 with tap R - y, but the stop test compares `ri`,
      which then equals the tap index and not the row, with the height: the
      window ends at tap `height` and drops the last R - y rows. */
  function VWindow(R: int, w: int, h: int, y: int, x: int): Window
  {
    if y < R then Window(x, R - y, Min(2 * R + 2, h))
    else Window(x + (y - R) * w, 0, Min(2 * R + 2, h - y + R))
  }

  /** Channel value of pixel `x` of row `y * w` after the horizontal pass. */
  function HPoint(R: int, plane: seq<Byte>, w: int, yi: int, x: int): Byte
    requires 1 <= R
  {
    var win := HWindow(R, w, yi, x);
    TapSumBound(R, plane, win.start, 1, win.lo, win.hi);
    Average(TapSum(R, plane, win.start, 1, win.lo, win.hi), WeightSum(R, win.lo, win.hi))
  }

  /** Channel value of pixel (x, y) after the vertical pass over `plane`. */
  function VPoint(R: int, plane: seq<Byte>, w: int, h: int, y: int, x: int): Byte
    requires 1 <= R
  {
    var win := VWindow(R, w, h, y, x);
    TapSumBound(R, plane, win.start, w, win.lo, win.hi);
    Average(TapSum(R, plane, win.start, w, win.lo, win.hi), WeightSum(R, win.lo, win.hi))
  }

  /** Row `yi` of a horizontal plane. */
  function HRow(R: int, plane: seq<Byte>, w: nat, yi: int): (row: seq<Byte>)
    requires 1 <= R
    ensures |row| == w
  {
    seq(w, x requires 0 <= x < w => HPoint(R, plane, w, yi, x))
  }

  /** The plane of channel `ch` that the horizontal pass writes. */
  function HorizontalRows(R: int, words: seq<Word>, ch: Channel, w: nat, h: nat): (plane: seq<Byte>)
    requires 1 <= R
    ensures |plane| == w * h
  {
    Grid(w, h, (y: nat, x: nat) => HPoint(R, Plane(words, ch), w, y * w, x))
  }

  /** The packed pixel (x, y) that the vertical pass writes from the four planes. */
  function VWord(R: int, a: seq<Byte>, r: seq<Byte>, g: seq<Byte>, b: seq<Byte>, w: nat, h: nat, y: int, x: int): Word
    requires 1 <= R
  {
    Pack(VPoint(R, a, w, h, y, x), VPoint(R, r, w, h, y, x), VPoint(R, g, w, h, y, x), VPoint(R, b, w, h, y, x))
  }

  /** Row `y` of the vertical pass's output. */
  function VRow(R: int, a: seq<Byte>, r: seq<Byte>, g: seq<Byte>, b: seq<Byte>, w: nat, h: nat, y: int): (row: seq<Word>)
    requires 1 <= R
    ensures |row| == w
  {
    seq(w, x requires 0 <= x < w => VWord(R, a, r, g, b, w, h, y, x))
  }

  /** The first `n` rows of packed words that the vertical pass writes from the
      four planes of an image of height `h`. */
  function VerticalRows(R: int, a: seq<Byte>, r: seq<Byte>, g: seq<Byte>, b: seq<Byte>, w: nat, h: nat, n: nat): (words: seq<Word>)
    requires 1 <= R
    ensures |words| == w * n
  {
    Grid(w, n, (y: nat, x: nat) => VWord(R, a, r, g, b, w, h, y, x))
  }

  /** The packed image after both passes with kernel radius `R`. */
  function Blurred(words: seq<Word>, w: nat, h: nat, R: int): (out: seq<Word>)
    requires 1 <= R
    ensures |out| == w * h
  {
    VerticalRows(R,
      HorizontalRows(R, words, Alpha, w, h), HorizontalRows(R, words, Red, w, h),
      HorizontalRows(R, words, Green, w, h), HorizontalRows(R, words, Blue, w, h), w, h, h)
  }

  lemma HorizontalRowsAt(R: int, words: seq<Word>, ch: Channel, w: nat, h: nat, y: nat, x: nat)
    requires 1 <= R && y < h && x < w
    ensures y * w + x < w * h
    ensures HorizontalRows(R, words, ch, w, h)[y * w + x] == HPoint(R, Plane(words, ch), w, y * w, x)
  {
    GridAt(w, h, (y: nat, x: nat) => HPoint(R, Plane(words, ch), w, y * w, x), y, x);
  }

  lemma VerticalRowsAt(R: int, a: seq<Byte>, r: seq<Byte>, g: seq<Byte>, b: seq<Byte>, w: nat, h: nat, y: nat, x: nat)
    requires 1 <= R && y < h && x < w
    ensures y * w + x < w * h
    ensures VerticalRows(R, a, r, g, b, w, h, h)[y * w + x] == VWord(R, a, r, g, b, w, h, y, x)
  {
    GridAt(w, h, (y: nat, x: nat) => VWord(R, a, r, g, b, w, h, y, x), y, x);
  }

  /* ---------- properties of the windows ---------- */

  /** A window's weight is at least the weight of any tap inside it. */
  lemma {:induction false} WeightSumCovers(R: int, lo: int, hi: int, k: int)
    requires 1 <= R && lo <= k < hi
    ensures WeightSum(R, lo, hi) >= KernelWeight(R, k)
    decreases hi - lo
  {
    if lo < k {
      WeightSumCovers(R, lo + 1, hi, k);
    }
  }

  /** The horizontal divisor is never 0: the centre tap R reads column x itself,
      so at least R^2 is summed. */
  lemma HorizontalWeightPositive(R: int, w: int, yi: int, x: int)
    requires 1 <= R && 0 <= x < w
    ensures var win := HWindow(R, w, yi, x); WeightSum(R, win.lo, win.hi) >= R * R > 0
  {
    var win := HWindow(R, w, yi, x);
    WeightSumCovers(R, win.lo, win.hi, R);
    MulMonotone(1, R, R);
  }

  /** The vertical divisor is 0 exactly when R - y >= height, and then no tap at
      all is summed. */
  lemma VerticalWeightZero(R: int, w: int, h: int, y: int, x: int)
    requires 1 <= R && 0 <= y < h
    ensures var win := VWindow(R, w, h, y, x);
      && (WeightSum(R, win.lo, win.hi) == 0 <==> y + h <= R)
      && (y + h <= R ==> win.hi <= win.lo)
  {
    var win := VWindow(R, w, h, y, x);
    if y < R {
      if y + h > R {
        WeightSumCovers(R, win.lo, win.hi, win.lo);
      }
    } else {
      WeightSumCovers(R, win.lo, win.hi, R);
    }
  }

  /** Every tap of a horizontal window reads a column of its own row. */
  lemma HorizontalWindowInRow(R: int, w: int, yi: int, x: int)
    requires 1 <= R && 0 <= x < w
    ensures var win := HWindow(R, w, yi, x);
      && yi <= win.start
      && win.lo < win.hi
      && win.start + (win.hi - 1 - win.lo) < yi + w
  {
  }

  /** Every tap of a vertical window reads a row of the image. */
  lemma VerticalWindowInImage(R: int, w: int, h: int, y: int, x: int)
    requires 1 <= R && 0 <= y < h && 0 <= x < w
    ensures var win := VWindow(R, w, h, y, x);
      win.lo < win.hi ==> 0 <= win.start && win.start + (win.hi - 1 - win.lo) * w < w * h
  {
    var win := VWindow(R, w, h, y, x);
    if win.lo < win.hi {
      var last := win.hi - 1 - win.lo + (if y < R then 0 else y - R);
      assert win.start + (win.hi - 1 - win.lo) * w == last * w + x;
      FlatIndexBound(last, x, w, h);
      if R <= y {
        FlatIndexBound(y - R, x, w, h);
      }
    }
  }

  /** Over a plane of one colour `c` a window whose taps all lie in the plane
      sums `c` times its weight. */
  lemma {:induction false} TapSumUniform(R: int, plane: seq<Byte>, c: Byte, pos: int, stride: int, i: int, hi: int)
    requires 1 <= R && 0 <= stride
    requires forall k :: 0 <= k < |plane| ==> plane[k] == c
    requires i < hi ==> 0 <= pos && pos + (hi - 1 - i) * stride < |plane|
    ensures TapSum(R, plane, pos, stride, i, hi) == c * WeightSum(R, i, hi)
    decreases hi - i
  {
    if i < hi {
      MulMonotone(0, hi - 1 - i, stride);
      if i + 1 < hi {
        assert pos + stride + (hi - 1 - (i + 1)) * stride == pos + (hi - 1 - i) * stride;
      }
      TapSumUniform(R, plane, c, pos + stride, stride, i + 1, hi);
      var kw, rest := KernelWeight(R, i), WeightSum(R, i + 1, hi);
      assert WeightSum(R, i, hi) == kw + rest;
      assert PlaneAt(plane, pos) == c;
      var tail := TapSum(R, plane, pos + stride, stride, i + 1, hi);
      assert TapSum(R, plane, pos, stride, i, hi) == kw * c + tail;
      assert tail == c * rest;
      MulDistributes(c, kw, rest);
    }
  }

  /** The horizontal pass maps a plane of one colour to itself. */
  lemma HorizontalPointUniform(R: int, plane: seq<Byte>, c: Byte, w: nat, h: nat, y: nat, x: nat)
    requires 1 <= R && y < h && x < w && |plane| == w * h
    requires forall k :: 0 <= k < |plane| ==> plane[k] == c
    ensures HPoint(R, plane, w, y * w, x) == c
  {
    var win := HWindow(R, w, y * w, x);
    HorizontalWindowInRow(R, w, y * w, x);
    RowBound(y, w, h);
    TapSumUniform(R, plane, c, win.start, 1, win.lo, win.hi);
    HorizontalWeightPositive(R, w, y * w, x);
    AverageConstant(c, WeightSum(R, win.lo, win.hi));
  }

  /** The vertical pass maps a plane of one colour to itself, except rows
      y <= R - height, which become 0. */
  lemma VerticalPointUniform(R: int, plane: seq<Byte>, c: Byte, w: nat, h: nat, y: nat, x: nat)
    requires 1 <= R && y < h && x < w && |plane| == w * h
    requires forall k :: 0 <= k < |plane| ==> plane[k] == c
    ensures VPoint(R, plane, w, h, y, x) == if y + h <= R then 0 else c
  {
    var win := VWindow(R, w, h, y, x);
    VerticalWindowInImage(R, w, h, y, x);
    VerticalWeightZero(R, w, h, y, x);
    TapSumUniform(R, plane, c, win.start, w, win.lo, win.hi);
    if y + h > R {
      AverageConstant(c, WeightSum(R, win.lo, win.hi));
    }
  }

  /** The horizontal planes of an image of one colour `C`. */
  lemma HorizontalRowsUniform(R: int, words: seq<Word>, C: Word, ch: Channel, w: nat, h: nat)
    requires 1 <= R && |words| == w * h
    requires forall j :: 0 <= j < |words| ==> words[j] == C
    ensures forall k :: 0 <= k < w * h ==> HorizontalRows(R, words, ch, w, h)[k] == ChannelOf(C, ch)
  {
    var plane := Plane(words, ch);
    forall k | 0 <= k < w * h
      ensures HorizontalRows(R, words, ch, w, h)[k] == ChannelOf(C, ch)
    {
      var y, x := k / w, k % w;
      FlatIndexSplit(k, w, h);
      HorizontalRowsAt(R, words, ch, w, h, y, x);
      HorizontalPointUniform(R, plane, ChannelOf(C, ch), w, h, y, x);
    }
  }

  /** Pixel (x, y) of a blurred image of one colour `C`: `C` itself, except in
      rows y <= R - height, which come out 0. */
  lemma BlurUniformAt(words: seq<Word>, C: Word, w: nat, h: nat, R: int, y: nat, x: nat)
    requires 1 <= R && |words| == w * h && y < h && x < w
    requires forall j :: 0 <= j < |words| ==> words[j] == C
    ensures y * w + x < w * h
    ensures Blurred(words, w, h, R)[y * w + x] == if y + h <= R then 0 else C
  {
    var a := HorizontalRows(R, words, Alpha, w, h);
    var r := HorizontalRows(R, words, Red, w, h);
    var g := HorizontalRows(R, words, Green, w, h);
    var b := HorizontalRows(R, words, Blue, w, h);
    HorizontalRowsUniform(R, words, C, Alpha, w, h);
    HorizontalRowsUniform(R, words, C, Red, w, h);
    HorizontalRowsUniform(R, words, C, Green, w, h);
    HorizontalRowsUniform(R, words, C, Blue, w, h);
    VerticalRowsAt(R, a, r, g, b, w, h, y, x);
    VerticalPointUniform(R, a, ChannelOf(C, Alpha), w, h, y, x);
    VerticalPointUniform(R, r, ChannelOf(C, Red), w, h, y, x);
    VerticalPointUniform(R, g, ChannelOf(C, Green), w, h, y, x);
    VerticalPointUniform(R, b, ChannelOf(C, Blue), w, h, y, x);
    PackOfChannels(C);
  }

  /** An image of one nonzero colour comes back unchanged exactly when the kernel
      radius is below the height. */
  lemma BlurUniformUnchanged(words: seq<Word>, C: Word, w: nat, h: nat, R: int)
    requires 1 <= R && 1 <= w && 1 <= h && |words| == w * h && C != 0
    requires forall j :: 0 <= j < |words| ==> words[j] == C
    ensures Blurred(words, w, h, R) == words <==> R < h
  {
    if R < h {
      forall k | 0 <= k < w * h
        ensures Blurred(words, w, h, R)[k] == words[k]
      {
        var y, x := k / w, k % w;
        FlatIndexSplit(k, w, h);
        BlurUniformAt(words, C, w, h, R, y, x);
      }
    } else {
      BlurUniformAt(words, C, w, h, R, 0, 0);
    }
  }

  /** A 4 x 4 image of one colour blurred with radius 2: the kernel radius is 7,
      not below the height 4, and every pixel comes out 0. */
  lemma FourByFourRadiusTwo(C: Word)
    ensures ClampRadius(2.0) == 7
    ensures Blurred(seq(16, _ => C), 4, 4, 7) == seq(16, _ => 0)
  {
    var words := seq(16, _ => C);
    forall k | 0 <= k < 16
      ensures Blurred(words, 4, 4, 7)[k] == 0
    {
      BlurUniformAt(words, C, 4, 4, 7, k / 4, k % 4);
    }
  }

  /** The two passes clip differently. On a three-pixel line 0, 255, 0 with kernel
      radius 2 (weights 0, 1, 4, 1, 0, 0) the first pixel averages over the
      taps that fit: horizontally that is (4 * 0 + 1 * 255) / 5 = 51, but
      vertically the window of row 0 ends at tap `height` = 3 and sums only the
      row itself. */
  lemma ClippedWindowsDiffer()
    ensures HPoint(2, [0, 255, 0], 3, 0, 0) == 51
    ensures VPoint(2, [0, 255, 0], 1, 3, 0, 0) == 0
  {
    assert WeightSum(2, 2, 5) == 5;
    assert TapSum(2, [0, 255, 0], 0, 1, 2, 5) == 255;
    assert WeightSum(2, 2, 3) == 4;
    assert TapSum(2, [0, 255, 0], 0, 1, 2, 3) == 0;
  }

  /* ---------- the passes ---------- */

  /** The four channels of pixel `k`, as the horizontal pass takes them apart. */
  method PixelChannels(argb: array<Word>, k: nat) returns (va: Byte, vr: Byte, vg: Byte, vb: Byte)
    requires k < argb.Length
    ensures va == Plane(argb[..], Alpha)[k] && vr == Plane(argb[..], Red)[k]
    ensures vg == Plane(argb[..], Green)[k] && vb == Plane(argb[..], Blue)[k]
  {
    var c := argb[k];
    va, vr, vg, vb := ChannelOf(c, Alpha), ChannelOf(c, Red), ChannelOf(c, Green), ChannelOf(c, Blue);
  }

  /** The tap loop of the horizontal pass: tap `i0` reads column `read0` of the
      row starting at `yi`, each later tap the next column, until the kernel
      or the row runs out. */
  method HorizontalTaps(cache: KernelCache, argb: array<Word>, w: nat, yi: nat, read0: nat, i0: nat)
    returns (ca: int, cr: int, cg: int, cb: int, sum: int)
    requires cache.Holds(cache.blurRadius)
    requires read0 <= w && yi + w <= argb.Length
    ensures var R := cache.blurRadius; var hi := Min(2 * R + 2, i0 + w - read0);
      && sum == WeightSum(R, i0, hi)
      && ca == TapSum(R, Plane(argb[..], Alpha), yi + read0, 1, i0, hi)
      && cr == TapSum(R, Plane(argb[..], Red), yi + read0, 1, i0, hi)
      && cg == TapSum(R, Plane(argb[..], Green), yi + read0, 1, i0, hi)
      && cb == TapSum(R, Plane(argb[..], Blue), yi + read0, 1, i0, hi)
  {
    ghost var R := cache.blurRadius;
    ghost var hi := Min(2 * R + 2, i0 + w - read0);
    ghost var pa, pr, pg, pb := Plane(argb[..], Alpha), Plane(argb[..], Red), Plane(argb[..], Green), Plane(argb[..], Blue);
    ca, cr, cg, cb, sum := 0, 0, 0, 0, 0;
    var read, i := read0, i0;
    while i < cache.blurKernelSize
      invariant i0 <= i && read == read0 + (i - i0) <= w
      invariant sum + WeightSum(R, i, hi) == WeightSum(R, i0, hi)
      invariant ca + TapSum(R, pa, yi + read, 1, i, hi) == TapSum(R, pa, yi + read0, 1, i0, hi)
      invariant cr + TapSum(R, pr, yi + read, 1, i, hi) == TapSum(R, pr, yi + read0, 1, i0, hi)
      invariant cg + TapSum(R, pg, yi + read, 1, i, hi) == TapSum(R, pg, yi + read0, 1, i0, hi)
      invariant cb + TapSum(R, pb, yi + read, 1, i, hi) == TapSum(R, pb, yi + read0, 1, i0, hi)
    {
      if read >= w {
        break;
      }
      var va, vr, vg, vb := PixelChannels(argb, yi + read);
      ca := ca + cache.blurMult[i, va];
      cr := cr + cache.blurMult[i, vr];
      cg := cg + cache.blurMult[i, vg];
      cb := cb + cache.blurMult[i, vb];
      sum := sum + cache.blurKernel[i];
      read := read + 1;
      i := i + 1;
    }
  }

  /** The horizontal pass for pixel `x` of the row at `yi`: where its window
      starts, then the tap loop; the four channel sums and the weight sum of
      its window, which includes the centre tap and so is never 0. */
  method HorizontalSums(cache: KernelCache, argb: array<Word>, w: nat, yi: nat, x: nat)
    returns (ca: int, cr: int, cg: int, cb: int, sum: int)
    requires cache.Holds(cache.blurRadius)
    requires x < w && yi + w <= argb.Length
    ensures var R := cache.blurRadius; var win := HWindow(R, w, yi, x);
      && sum == WeightSum(R, win.lo, win.hi) > 0
      && ca == TapSum(R, Plane(argb[..], Alpha), win.start, 1, win.lo, win.hi)
      && cr == TapSum(R, Plane(argb[..], Red), win.start, 1, win.lo, win.hi)
      && cg == TapSum(R, Plane(argb[..], Green), win.start, 1, win.lo, win.hi)
      && cb == TapSum(R, Plane(argb[..], Blue), win.start, 1, win.lo, win.hi)
  {
    HorizontalWeightPositive(cache.blurRadius, w, yi, x);
    var read := x - cache.blurRadius;
    var bk0;
    if read < 0 {
      bk0 := -read;
      read := 0;
    } else {
      // the source leaves the row when `read >= width`, which x < width rules out
      assert read < w;
      bk0 := 0;
    }
    ca, cr, cg, cb, sum := HorizontalTaps(cache, argb, w, yi, read, bk0);
  }

  /** The quotient the horizontal pass stores is the channel value `HPoint`. */
  lemma HorizontalQuotient(R: int, plane: seq<Byte>, w: int, yi: int, x: int, total: int, sum: int)
    requires 1 <= R
    requires var win := HWindow(R, w, yi, x);
      sum == WeightSum(R, win.lo, win.hi) > 0 && total == TapSum(R, plane, win.start, 1, win.lo, win.hi)
    ensures 0 <= total / sum < 0x100 && total / sum == HPoint(R, plane, w, yi, x)
  {
    var win := HWindow(R, w, yi, x);
    TapSumBound(R, plane, win.start, 1, win.lo, win.hi);
    assert HPoint(R, plane, w, yi, x) == Average(total, sum);
    assert Average(total, sum) == total / sum;
  }

  /** Pixel `x` of the row at `yi` after the horizontal pass: each channel sum
      divided by the weight sum, truncated. */
  method HorizontalPixel(cache: KernelCache, argb: array<Word>, w: nat, yi: nat, x: nat)
    returns (va: Byte, vr: Byte, vg: Byte, vb: Byte)
    requires cache.Holds(cache.blurRadius)
    requires x < w && yi + w <= argb.Length
    ensures va == HPoint(cache.blurRadius, Plane(argb[..], Alpha), w, yi, x)
    ensures vr == HPoint(cache.blurRadius, Plane(argb[..], Red), w, yi, x)
    ensures vg == HPoint(cache.blurRadius, Plane(argb[..], Green), w, yi, x)
    ensures vb == HPoint(cache.blurRadius, Plane(argb[..], Blue), w, yi, x)
  {
    var ca, cr, cg, cb, sum := HorizontalSums(cache, argb, w, yi, x);
    ghost var R := cache.blurRadius;
    HorizontalQuotient(R, Plane(argb[..], Alpha), w, yi, x, ca, sum);
    HorizontalQuotient(R, Plane(argb[..], Red), w, yi, x, cr, sum);
    HorizontalQuotient(R, Plane(argb[..], Green), w, yi, x, cg, sum);
    HorizontalQuotient(R, Plane(argb[..], Blue), w, yi, x, cb, sum);
    va, vr, vg, vb := ca / sum, cr / sum, cg / sum, cb / sum;
  }

  /** The four stores of one horizontal output: entry `ri` of each plane gets
      that channel's value, and nothing else changes. */
  method StorePixel(a2: array<Byte>, r2: array<Byte>, g2: array<Byte>, b2: array<Byte>,
                    ri: nat, va: Byte, vr: Byte, vg: Byte, vb: Byte)
    requires ri < a2.Length && ri < r2.Length && ri < g2.Length && ri < b2.Length
    requires a2 != r2 && a2 != g2 && a2 != b2 && r2 != g2 && r2 != b2 && g2 != b2
    modifies a2, r2, g2, b2
    ensures a2[..] == old(a2[..])[ri := va] && r2[..] == old(r2[..])[ri := vr]
    ensures g2[..] == old(g2[..])[ri := vg] && b2[..] == old(b2[..])[ri := vb]
  {
    a2[ri] := va;
    r2[ri] := vr;
    g2[ri] := vg;
    b2[ri] := vb;
  }

  /** One row of the horizontal pass: pixel `x` of row `y`, at `yi + x`, gets the
      truncated weighted average of its window in every channel plane; the rows
      before it are left alone. */
  method HorizontalRow(cache: KernelCache, argb: array<Word>, w: nat, yi: nat,
                       a2: array<Byte>, r2: array<Byte>, g2: array<Byte>, b2: array<Byte>)
    requires cache.Holds(cache.blurRadius)
    requires yi + w <= argb.Length
    requires yi + w <= a2.Length && yi + w <= r2.Length && yi + w <= g2.Length && yi + w <= b2.Length
    requires a2 != r2 && a2 != g2 && a2 != b2 && r2 != g2 && r2 != b2 && g2 != b2
    modifies a2, r2, g2, b2
    ensures a2[..yi] == old(a2[..yi]) && r2[..yi] == old(r2[..yi]) && g2[..yi] == old(g2[..yi]) && b2[..yi] == old(b2[..yi])
    ensures a2[yi + w..] == old(a2[yi + w..]) && r2[yi + w..] == old(r2[yi + w..])
    ensures g2[yi + w..] == old(g2[yi + w..]) && b2[yi + w..] == old(b2[yi + w..])
    ensures a2[yi..yi + w] == HRow(cache.blurRadius, Plane(argb[..], Alpha), w, yi)
    ensures r2[yi..yi + w] == HRow(cache.blurRadius, Plane(argb[..], Red), w, yi)
    ensures g2[yi..yi + w] == HRow(cache.blurRadius, Plane(argb[..], Green), w, yi)
    ensures b2[yi..yi + w] == HRow(cache.blurRadius, Plane(argb[..], Blue), w, yi)
  {
    ghost var R := cache.blurRadius;
    ghost var pa, pr, pg, pb := Plane(argb[..], Alpha), Plane(argb[..], Red), Plane(argb[..], Green), Plane(argb[..], Blue);
    ghost var ea, er, eg, eb := HRow(R, pa, w, yi), HRow(R, pr, w, yi), HRow(R, pg, w, yi), HRow(R, pb, w, yi);
    var x := 0;
    while x < w
      invariant 0 <= x <= w
      invariant RowWritten(a2[..], old(a2[..]), yi, x, ea) && RowWritten(r2[..], old(r2[..]), yi, x, er)
      invariant RowWritten(g2[..], old(g2[..]), yi, x, eg) && RowWritten(b2[..], old(b2[..]), yi, x, eb)
    {
      var va, vr, vg, vb := HorizontalPixel(cache, argb, w, yi, x);
      RowWrite(a2[..], old(a2[..]), yi, x, va, ea);
      RowWrite(r2[..], old(r2[..]), yi, x, vr, er);
      RowWrite(g2[..], old(g2[..]), yi, x, vg, eg);
      RowWrite(b2[..], old(b2[..]), yi, x, vb, eb);
      StorePixel(a2, r2, g2, b2, yi + x, va, vr, vg, vb);
      x := x + 1;
    }
  }

  /** The horizontal planes grow a row at a time. */
  lemma HorizontalRowsStep(R: int, words: seq<Word>, ch: Channel, w: nat, y: nat)
    requires 1 <= R
    ensures HorizontalRows(R, words, ch, w, y + 1) == HorizontalRows(R, words, ch, w, y) + HRow(R, Plane(words, ch), w, y * w)
  {
  }

  /** The horizontal pass: one plane per channel, pixel (x, y) at `y * w + x`
      holding the truncated weighted average of its window. */
  method HorizontalPass(cache: KernelCache, argb: array<Word>, w: nat, h: nat)
    returns (a2: array<Byte>, r2: array<Byte>, g2: array<Byte>, b2: array<Byte>)
    requires cache.Holds(cache.blurRadius)
    requires argb.Length == w * h
    ensures a2[..] == HorizontalRows(cache.blurRadius, argb[..], Alpha, w, h)
    ensures r2[..] == HorizontalRows(cache.blurRadius, argb[..], Red, w, h)
    ensures g2[..] == HorizontalRows(cache.blurRadius, argb[..], Green, w, h)
    ensures b2[..] == HorizontalRows(cache.blurRadius, argb[..], Blue, w, h)
    ensures fresh(a2) && fresh(r2) && fresh(g2) && fresh(b2)
    ensures a2 != r2 && a2 != g2 && a2 != b2 && r2 != g2 && r2 != b2 && g2 != b2
  {
    ghost var R := cache.blurRadius;
    ghost var words := argb[..];
    a2 := new Byte[w * h](_ => 0);
    r2 := new Byte[w * h](_ => 0);
    g2 := new Byte[w * h](_ => 0);
    b2 := new Byte[w * h](_ => 0);
    var yi := 0;
    var y := 0;
    while y < h
      invariant 0 <= y <= h && yi == y * w
      invariant a2[..yi] == HorizontalRows(R, words, Alpha, w, y)
      invariant r2[..yi] == HorizontalRows(R, words, Red, w, y)
      invariant g2[..yi] == HorizontalRows(R, words, Green, w, y)
      invariant b2[..yi] == HorizontalRows(R, words, Blue, w, y)
    {
      RowBound(y, w, h);
      HorizontalRow(cache, argb, w, yi, a2, r2, g2, b2);
      HorizontalRowsStep(R, words, Alpha, w, y);
      HorizontalRowsStep(R, words, Red, w, y);
      HorizontalRowsStep(R, words, Green, w, y);
      HorizontalRowsStep(R, words, Blue, w, y);
      PrefixGrows(a2[..], yi, w);
      PrefixGrows(r2[..], yi, w);
      PrefixGrows(g2[..], yi, w);
      PrefixGrows(b2[..], yi, w);
      assert yi + w == (y + 1) * w;
      yi := yi + w;
      y := y + 1;
    }
    assert yi == a2.Length;
  }

  /** The tap loop of the vertical pass for pixel (x, y), where `ym` = y - R is
      the row of tap 0 and `ymi` = ym * width its offset. Above row R the loop
      starts at tap R - y reading row 0, but it counts `ri` from R - y and stops
      once `ri` reaches the height, so the window is cut short (`VWindow`). */
  method VerticalSums(cache: KernelCache, a2: array<Byte>, r2: array<Byte>, g2: array<Byte>, b2: array<Byte>,
                      w: nat, h: nat, x: nat, y: nat, ym: int, ymi: int)
    returns (ca: int, cr: int, cg: int, cb: int, sum: int)
    requires cache.Holds(cache.blurRadius)
    requires x < w && y < h
    requires a2.Length == w * h && r2.Length == w * h && g2.Length == w * h && b2.Length == w * h
    requires ym == y - cache.blurRadius && ymi == ym * w
    ensures var R := cache.blurRadius; var win := VWindow(R, w, h, y, x);
      && sum == WeightSum(R, win.lo, win.hi)
      && ca == TapSum(R, a2[..], win.start, w, win.lo, win.hi)
      && cr == TapSum(R, r2[..], win.start, w, win.lo, win.hi)
      && cg == TapSum(R, g2[..], win.start, w, win.lo, win.hi)
      && cb == TapSum(R, b2[..], win.start, w, win.lo, win.hi)
  {
    ghost var R := cache.blurRadius;
    ghost var win := VWindow(R, w, h, y, x);
    ghost var pa, pr, pg, pb := a2[..], r2[..], g2[..], b2[..];
    ca, cr, cg, cb, sum := 0, 0, 0, 0, 0;
    var read, ri, bk0;
    ghost var row;
    if ym < 0 {
      bk0 := -ym;
      ri := -ym;
      read := x;
      row := 0;
    } else {
      // the source leaves the row when `ym >= height`, which y < height rules out
      assert ym < h;
      bk0 := 0;
      ri := ym;
      read := x + ymi;
      row := ym;
    }
    RowStartIs(row, w);
    var i := bk0;
    while i < cache.blurKernelSize
      invariant win.lo == bk0 <= i
      invariant row == y - R + i && 0 <= row && read == x + RowStart(row, w)
      invariant ri == if y < R then i else row
      invariant sum + WeightSum(R, i, win.hi) == WeightSum(R, win.lo, win.hi)
      invariant ca + TapSum(R, pa, read, w, i, win.hi) == TapSum(R, pa, win.start, w, win.lo, win.hi)
      invariant cr + TapSum(R, pr, read, w, i, win.hi) == TapSum(R, pr, win.start, w, win.lo, win.hi)
      invariant cg + TapSum(R, pg, read, w, i, win.hi) == TapSum(R, pg, win.start, w, win.lo, win.hi)
      invariant cb + TapSum(R, pb, read, w, i, win.hi) == TapSum(R, pb, win.start, w, win.lo, win.hi)
    {
      if ri >= h {
        break;
      }
      assert 0 <= read < a2.Length by {
        RowStartIs(row, w);
        FlatIndexBound(row, x, w, h);
      }
      ca := ca + cache.blurMult[i, a2[read]];
      cr := cr + cache.blurMult[i, r2[read]];
      cg := cg + cache.blurMult[i, g2[read]];
      cb := cb + cache.blurMult[i, b2[read]];
      sum := sum + cache.blurKernel[i];
      ri := ri + 1;
      read := read + w;
      row := row + 1;
      i := i + 1;
    }
  }

  /** The quotient the vertical pass stores is the channel value `VPoint`; a
      window without weight gives `0 / 0`, NaN, which the shift turns into 0. */
  lemma VerticalQuotient(R: int, plane: seq<Byte>, w: int, h: int, y: int, x: int, total: int, sum: int)
    requires 1 <= R
    requires var win := VWindow(R, w, h, y, x);
      sum == WeightSum(R, win.lo, win.hi) && total == TapSum(R, plane, win.start, w, win.lo, win.hi)
    ensures sum == 0 ==> VPoint(R, plane, w, h, y, x) == 0
    ensures sum != 0 ==> 0 <= total / sum < 0x100 && total / sum == VPoint(R, plane, w, h, y, x)
  {
    var win := VWindow(R, w, h, y, x);
    TapSumBound(R, plane, win.start, w, win.lo, win.hi);
    assert VPoint(R, plane, w, h, y, x) == Average(total, sum);
    if sum != 0 {
      assert Average(total, sum) == total / sum;
    }
  }

  /** Pixel (x, y) after the vertical pass: the four truncated quotients packed
      into one word. The shifts by 24, 16 and 8 and the ors place four bytes in
      disjoint bits, which is `Pack`. */
  method VerticalPixel(cache: KernelCache, a2: array<Byte>, r2: array<Byte>, g2: array<Byte>, b2: array<Byte>,
                       w: nat, h: nat, x: nat, y: nat, ym: int, ymi: int)
    returns (c: Word)
    requires cache.Holds(cache.blurRadius)
    requires x < w && y < h
    requires a2.Length == w * h && r2.Length == w * h && g2.Length == w * h && b2.Length == w * h
    requires ym == y - cache.blurRadius && ymi == ym * w
    ensures c == VWord(cache.blurRadius, a2[..], r2[..], g2[..], b2[..], w, h, y, x)
  {
    var ca, cr, cg, cb, sum := VerticalSums(cache, a2, r2, g2, b2, w, h, x, y, ym, ymi);
    ghost var R := cache.blurRadius;
    VerticalQuotient(R, a2[..], w, h, y, x, ca, sum);
    VerticalQuotient(R, r2[..], w, h, y, x, cr, sum);
    VerticalQuotient(R, g2[..], w, h, y, x, cg, sum);
    VerticalQuotient(R, b2[..], w, h, y, x, cb, sum);
    var va, vr, vg, vb: Byte;
    if sum == 0 {
      va, vr, vg, vb := 0, 0, 0, 0;
    } else {
      va, vr, vg, vb := ca / sum, cr / sum, cg / sum, cb / sum;
    }
    c := Pack(va, vr, vg, vb);
  }

  /** One row of the vertical pass: pixel `x` of row `y`, at `yi + x`, gets the
      packed vertical averages; the rows before it are left alone. */
  method VerticalRow(cache: KernelCache, a2: array<Byte>, r2: array<Byte>, g2: array<Byte>, b2: array<Byte>,
                     argb: array<Word>, w: nat, h: nat, y: nat, yi: nat, ym: int, ymi: int)
    requires cache.Holds(cache.blurRadius)
    requires y < h && yi == y * w && yi + w <= argb.Length
    requires a2.Length == w * h && r2.Length == w * h && g2.Length == w * h && b2.Length == w * h
    requires ym == y - cache.blurRadius && ymi == ym * w
    modifies argb
    ensures argb[..yi] == old(argb[..yi]) && argb[yi + w..] == old(argb[yi + w..])
    ensures argb[yi..yi + w] == VRow(cache.blurRadius, a2[..], r2[..], g2[..], b2[..], w, h, y)
  {
    ghost var e := VRow(cache.blurRadius, a2[..], r2[..], g2[..], b2[..], w, h, y);
    var x := 0;
    while x < w
      invariant 0 <= x <= w
      invariant RowWritten(argb[..], old(argb[..]), yi, x, e)
    {
      var c := VerticalPixel(cache, a2, r2, g2, b2, w, h, x, y, ym, ymi);
      ghost var before := argb[..];
      argb[x + yi] := c;
      assert argb[..] == before[yi + x := c];
      RowWrite(before, old(argb[..]), yi, x, c, e);
      x := x + 1;
    }
  }

  /** The vertical planes grow a row at a time. */
  lemma VerticalRowsStep(R: int, a: seq<Byte>, r: seq<Byte>, g: seq<Byte>, b: seq<Byte>, w: nat, h: nat, y: nat)
    requires 1 <= R
    ensures VerticalRows(R, a, r, g, b, w, h, y + 1) == VerticalRows(R, a, r, g, b, w, h, y) + VRow(R, a, r, g, b, w, h, y)
  {
  }

  /** The vertical pass: `argb` receives, at `y * w + x`, the packed vertical
      averages of the four planes. */
  method VerticalPass(cache: KernelCache, a2: array<Byte>, r2: array<Byte>, g2: array<Byte>, b2: array<Byte>,
                      argb: array<Word>, w: nat, h: nat)
    requires cache.Holds(cache.blurRadius)
    requires argb.Length == w * h
    requires a2.Length == w * h && r2.Length == w * h && g2.Length == w * h && b2.Length == w * h
    modifies argb
    ensures argb[..] == VerticalRows(cache.blurRadius, a2[..], r2[..], g2[..], b2[..], w, h, h)
  {
    ghost var R := cache.blurRadius;
    var yi := 0;
    var ym := -cache.blurRadius;
    var ymi := ym * w;
    ghost var rw := R * w;
    var y := 0;
    while y < h
      invariant 0 <= y <= h && yi == y * w
      invariant ym == y - R && ymi == yi - rw
      invariant argb[..yi] == VerticalRows(R, a2[..], r2[..], g2[..], b2[..], w, h, y)
    {
      RowBound(y, w, h);
      assert ymi == ym * w by {
        assert (y - R) * w == y * w - R * w;
      }
      VerticalRow(cache, a2, r2, g2, b2, argb, w, h, y, yi, ym, ymi);
      VerticalRowsStep(R, a2[..], r2[..], g2[..], b2[..], w, h, y);
      PrefixGrows(argb[..], yi, w);
      assert yi + w == (y + 1) * w;
      yi := yi + w;
      ymi := ymi + w;
      ym := ym + 1;
      y := y + 1;
    }
    assert yi == argb.Length;
  }

  /** The first loop of `blurARGB`: a fresh Int32Array of `n` words, word `j`
      being `getARGB(pixels, j)`. */
  method PackPixels(pixels: array<Byte>, n: nat) returns (argb: array<Word>)
    ensures fresh(argb)
    ensures argb[..] == PackAll(pixels[..], n)
  {
    argb := new Word[n](_ => 0);
    var j := 0;
    while j < n
      invariant 0 <= j <= n
      invariant forall k :: 0 <= k < j ==> argb[k] == GetARGB(pixels[..], k)
    {
      argb[j] := GetARGB(pixels[..], j);
      j := j + 1;
    }
    assert argb[..] == PackAll(pixels[..], n);
  }

  /** `blurARGB(pixels, canvas, radius)`: pack the first width * height pixels,
      (re)build the kernel for `radius`, run the horizontal and the vertical pass,
      and unpack the result into `pixels`. */
  method BlurARGB(pixels: array<Byte>, width: nat, height: nat, radius: real, cache: KernelCache)
    requires cache.Valid()
    modifies pixels, cache
    ensures cache.Holds(ClampRadius(radius))
    ensures pixels[..] == Unpacked(Blurred(PackAll(old(pixels[..]), width * height), width, height, ClampRadius(radius)), pixels.Length)
  {
    var numPackedPixels := width * height;
    var argb := PackPixels(pixels, numPackedPixels);
    ghost var words := argb[..];
    cache.BuildBlurKernel(radius);
    ghost var R := ClampRadius(radius);
    var a2, r2, g2, b2 := HorizontalPass(cache, argb, width, height);
    assert a2[..] == HorizontalRows(R, words, Alpha, width, height);
    VerticalPass(cache, a2, r2, g2, b2, argb, width, height);
    assert a2[..] == HorizontalRows(R, words, Alpha, width, height);
    assert argb[..] == Blurred(words, width, height, R);
    SetPixels(pixels, argb);
  }
}
