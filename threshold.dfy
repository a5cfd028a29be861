/** The luminance binarizer `thresholdFilter` of ocr.js.

    The source compares the float luminance 0.2126 R + 0.7152 G + 0.0722 B with
    `Math.floor(level * 255)`. Here the luminance is scaled by 10000, so the test
    is exact integer arithmetic: 2126 R + 7152 G + 722 B >= 10000 t.
 */
module Threshold {
  import opened PixelCodec

  datatype Option<T> = None | Some(value: T)

  /** Ten thousand times the luminance of a pixel. The weights sum to 10000, so a
      grey pixel with all three channels equal to v has luminance exactly v. */
  function Luminance(r: Byte, g: Byte, b: Byte): (l: int)
    ensures 0 <= l <= 10000 * 255
    ensures r == g == b ==> l == 10000 * (r as int)
  {
    2126 * (r as int) + 7152 * (g as int) + 722 * (b as int)
  }

  /** `Math.floor(level * 255)`, where an omitted level stands for 0.5. */
  function Cutoff(level: Option<real>): (t: int)
    ensures level == None ==> t == 127
    ensures level.Some? ==> t as real <= level.value * 255.0 < t as real + 1.0
  {
    var lv := if level.None? then 0.5 else level.value;
    (lv * 255.0).Floor
  }

  /** The value the filter writes to R, G and B of a complete pixel. */
  function Binarize(r: Byte, g: Byte, b: Byte, t: int): (val: Byte)
    ensures val == 255 <==> Luminance(r, g, b) >= 10000 * t
    ensures val == 0 <==> Luminance(r, g, b) < 10000 * t
  {
    if Luminance(r, g, b) >= 10000 * t then 255 else 0
  }

  /** A black or white grey pixel that `Binarize` produced for cutoff `t` is
      binarized to itself: its own luminance, 0 or 255, lies on the same side of
      the cutoff as the luminance that produced it. */
  lemma BinarizeFixed(r: Byte, g: Byte, b: Byte, t: int)
    ensures var v := Binarize(r, g, b, t); Binarize(v, v, v, t) == v
  {
    var v := Binarize(r, g, b, t);
    assert Luminance(v, v, v) == 10000 * (v as int);
  }

  /** Byte `lane` of pixel `p` after one pass of the filter with cutoff `t`.
      Byte 3 of every pixel (alpha) is kept. The colour bytes of a pixel whose
      R, G and B all exist are binarized by its luminance. In a trailing pixel cut
      short by the end of the buffer a missing channel reads as `undefined`: the
      luminance is NaN, the comparison fails and the bytes that exist become 0. */
  function PixelByte(s: seq<Byte>, t: int, p: nat, lane: nat): Byte
    requires lane < 4 && 4 * p + lane < |s|
  {
    if lane == 3 then s[4 * p + 3]
    else if 4 * p + 2 < |s| then Binarize(s[4 * p], s[4 * p + 1], s[4 * p + 2], t)
    else 0
  }

  /** The whole buffer after one pass of the filter with cutoff `t`. */
  function Thresholded(s: seq<Byte>, t: int): (r: seq<Byte>)
    ensures |r| == |s|
  {
    seq(|s|, k requires 0 <= k < |s| => PixelByte(s, t, k / 4, k % 4))
  }

  /** `Thresholded` read pixel by pixel. */
  lemma ThresholdedAt(s: seq<Byte>, t: int, p: nat, lane: nat)
    requires lane < 4 && 4 * p + lane < |s|
    ensures Thresholded(s, t)[4 * p + lane] == PixelByte(s, t, p, lane)
  {
    var k := 4 * p + lane;
    assert k / 4 == p && k % 4 == lane;
  }

  /** What the filter promises about one complete pixel `p`: its alpha is
      untouched, its R, G and B share one value, and that value is 255 exactly when
      the pixel's luminance is at least the cutoff, and 0 otherwise. */
  lemma ThresholdedPixel(s: seq<Byte>, t: int, p: nat)
    requires 4 * p + 2 < |s|
    ensures var r := Thresholded(s, t);
      && r[4 * p] == r[4 * p + 1] == r[4 * p + 2]
      && (r[4 * p] == 255 <==> Luminance(s[4 * p], s[4 * p + 1], s[4 * p + 2]) >= 10000 * t)
      && (r[4 * p] == 0 <==> Luminance(s[4 * p], s[4 * p + 1], s[4 * p + 2]) < 10000 * t)
      && (4 * p + 3 < |s| ==> r[4 * p + 3] == s[4 * p + 3])
  {
    ThresholdedAt(s, t, p, 0);
    ThresholdedAt(s, t, p, 1);
    ThresholdedAt(s, t, p, 2);
    if 4 * p + 3 < |s| {
      ThresholdedAt(s, t, p, 3);
    }
  }

  /** A second pass leaves a colour byte of a complete pixel alone. */
  lemma ThresholdedTwiceColour(s: seq<Byte>, t: int, p: nat, lane: nat)
    requires lane < 3 && 4 * p + 2 < |s|
    ensures Thresholded(Thresholded(s, t), t)[4 * p + lane] == Thresholded(s, t)[4 * p + lane]
  {
    var once := Thresholded(s, t);
    var v := Binarize(s[4 * p], s[4 * p + 1], s[4 * p + 2], t);
    ThresholdedAt(s, t, p, 0);
    ThresholdedAt(s, t, p, 1);
    ThresholdedAt(s, t, p, 2);
    assert once[4 * p] == once[4 * p + 1] == once[4 * p + 2] == v;
    BinarizeFixed(s[4 * p], s[4 * p + 1], s[4 * p + 2], t);
    assert PixelByte(once, t, p, lane) == Binarize(v, v, v, t) == v;
    ThresholdedAt(once, t, p, lane);
    assert once[4 * p + lane] == v by { ThresholdedAt(s, t, p, lane); }
  }

  /** Byte `k` is left alone by a second pass. */
  lemma ThresholdedTwiceAt(s: seq<Byte>, t: int, k: nat)
    requires k < |s|
    ensures Thresholded(Thresholded(s, t), t)[k] == Thresholded(s, t)[k]
  {
    var p, lane := k / 4, k % 4;
    assert k == 4 * p + lane;
    if lane == 3 {
      ThresholdedAt(Thresholded(s, t), t, p, 3);
    } else if 4 * p + 2 < |s| {
      ThresholdedTwiceColour(s, t, p, lane);
    } else {
      ThresholdedAt(s, t, p, lane);
      ThresholdedAt(Thresholded(s, t), t, p, lane);
    }
  }

  /** A second pass changes nothing: after one pass every complete pixel is black
      or white with R = G = B, whose luminance (0 or 255) lies on the same side of
      the cutoff as the luminance that put it there. */
  lemma ThresholdIdempotent(s: seq<Byte>, t: int)
    ensures Thresholded(Thresholded(s, t), t) == Thresholded(s, t)
  {
    forall k | 0 <= k < |s|
      ensures Thresholded(Thresholded(s, t), t)[k] == Thresholded(s, t)[k]
    {
      ThresholdedTwiceAt(s, t, k);
    }
  }

  /** A grey pixel of value 128 with level 0.502 lies exactly on the cutoff 128 and
      becomes white: the comparison is "at least", not "above". */
  lemma CutoffBoundaryIsWhite()
    ensures Cutoff(Some(0.502)) == 128
    ensures Thresholded([128, 128, 128, 255], Cutoff(Some(0.502))) == [255, 255, 255, 255]
  {
    ThresholdedPixel([128, 128, 128, 255], 128, 0);
    assert Thresholded([128, 128, 128, 255], 128)[3] == 255;
  }

  /** An all-white buffer of whole pixels comes back unchanged for every cutoff up
      to 255, in particular for the default level. */
  lemma WhiteStaysWhite(s: seq<Byte>, t: int)
    requires |s| % 4 == 0 && t <= 255
    requires forall k :: 0 <= k < |s| ==> s[k] == 255
    ensures Thresholded(s, t) == s
  {
    forall k | 0 <= k < |s|
      ensures Thresholded(s, t)[k] == s[k]
    {
      WholePixel(k, |s|);
      assert Thresholded(s, t)[k] == PixelByte(s, t, k / 4, k % 4);
    }
  }

  /** In a buffer of whole pixels, the pixel holding index `k` is complete. */
  lemma WholePixel(k: nat, n: nat)
    requires n % 4 == 0 && k < n
    ensures 4 * (k / 4) + 3 < n
  {
  }

  /** `thresholdFilter(pixels, level)`: a stride-4 loop over the buffer that
      overwrites R, G and B of each pixel in place. */
  method ThresholdFilter(pixels: array<Byte>, level: Option<real>)
    modifies pixels
    ensures pixels[..] == Thresholded(old(pixels[..]), Cutoff(level))
  {
    var thresh := Cutoff(level);
    ghost var s := pixels[..];
    var i := 0;
    ghost var p := 0;
    while i < pixels.Length
      invariant 0 <= i == 4 * p
      invariant i < pixels.Length + 4
      invariant forall q, lane {:trigger PixelByte(s, thresh, q, lane)} ::
        0 <= q < p && 0 <= lane < 4 && 4 * q + lane < pixels.Length ==>
        pixels[4 * q + lane] == PixelByte(s, thresh, q, lane)
      invariant forall k :: i <= k < pixels.Length ==> pixels[k] == s[k]
    {
      if i + 2 < pixels.Length {
        var r, g, b := pixels[i], pixels[i + 1], pixels[i + 2];
        var val: Byte;
        if Luminance(r, g, b) >= 10000 * thresh {
          val := 255;
        } else {
          val := 0;
        }
        pixels[i], pixels[i + 1], pixels[i + 2] := val, val, val;
      } else {
        // a missing channel reads as undefined, the luminance is NaN, the test
        // fails, and the writes past the end of the buffer are dropped
        pixels[i] := 0;
        if i + 1 < pixels.Length {
          pixels[i + 1] := 0;
        }
      }
      i, p := i + 4, p + 1;
    }
    forall k | 0 <= k < pixels.Length
      ensures pixels[k] == Thresholded(s, thresh)[k]
    {
      var q, lane := k / 4, k % 4;
      assert k == 4 * q + lane;
      ThresholdedAt(s, thresh, q, lane);
    }
    assert pixels[..] == Thresholded(s, thresh);
  }
}
