# Pixel filters of ocr.js in Dafny

This project models the image pre-processing core of `ocr.js`: the routines that
transform a canvas's RGBA byte buffer before the image goes to the OCR engine.

- **Threshold binarizer** (`thresholdFilter`, module `Threshold`, file
  `threshold.dfy`). It walks the buffer in steps of four bytes. Each pixel's R, G
  and B become 255 when its luminance reaches `floor(level * 255)`, and 0
  otherwise. Alpha is kept. The luminance test is the exact integer form
  `2126 R + 7152 G + 722 B >= 10000 t`.
- **Packed-pixel codec** (`getARGB` and `setPixels`, module `PixelCodec`, file
  `codec.dfy`). It converts between the R,G,B,A byte layout and one A|R|G|B
  32-bit word per pixel. A `Word` is the unsigned reading of those 32 bits. Masks
  and shifts are written as division and remainder by powers of two.
- **Blur kernel and its cache** (`buildBlurKernel`, module `BlurKernel`, file
  `kernel.dfy`). The four closure variables `blurRadius`, `blurKernelSize`,
  `blurKernel` and `blurMult` are the fields of class `KernelCache`. The
  builder clamps `(r * 3.5) | 0` to 1 .. 248. It rebuilds only when the clamped
  radius differs from the cached one. It fills the squared-triangle weights and
  the weight-times-byte lookup table.
- **Separable blur** (`blurARGB`, module `Blur`, file `blur.dfy`). It packs the
  pixels and runs a horizontal pass into four channel planes. A vertical pass
  then writes packed words back, and the result is unpacked into the buffer.
  Each pass is a method with the source's nested loops. Each is proved against
  a specification function:
  - `HorizontalRows` for the horizontal pass;
  - `VerticalRows` for the vertical pass;
  - `Blurred` for both passes together.

  Those functions are built from one window per output pixel (`HWindow`,
  `VWindow`), the weighted tap sum over it (`TapSum`) and the truncated average
  (`Average`).

The vertical pass keeps a quirk of the code. Take a row `y` above the kernel
radius `R`. It starts reading at row 0 with tap `R - y`, but stops once the
counter `ri` reaches the height, and `ri` starts at `R - y`, not at 0. So on
short images the window is cut short. When `R - y >= height` no tap is summed
at all: `0 / 0` is NaN, and the shift turns it into 0. `VWindow` states this.
`VerticalWeightZero`, `VerticalPointUniform` and `ClippedWindowsDiffer` state
its consequences.

## Model

| member | source | states |
|---|---|---|
| PixelCodec.GetARGB | ocr.js:273-281 | The alpha, red, green and blue channels of the word are the bytes at 4i+3, 4i, 4i+1 and 4i+2; a byte past the end of the buffer reads as 0 |
| PixelCodec.ChannelOfPack | ocr.js:273-281 | Extracting any of the four channels from a packed word gives back the byte that was packed there |
| PixelCodec.PackOfChannels | ocr.js:284-293 | Packing the four channels extracted from a word gives back the word, so no bit is lost |
| PixelCodec.SetPixels | ocr.js:284-293 | Afterwards byte k of the buffer is channel R, G, B or A (by k mod 4) of word k / 4, and 0 where that word lies past the end of `data`; writes past the buffer's end change nothing |
| PixelCodec.UnpackedPackAll | ocr.js:273-293 | Packing n pixels with getARGB and unpacking them with setPixels restores a buffer of at most 4n bytes byte for byte |
| PixelCodec.PackAllUnpacked | ocr.js:273-293 | Unpacking n words into 4n bytes and packing them again gives back the words |
| Threshold.Luminance | ocr.js:86 | The scaled luminance lies in 0 .. 255 * 10000, and a grey pixel of value v has luminance exactly v |
| Threshold.Cutoff | ocr.js:78-81 | An omitted level gives cutoff 127; otherwise the cutoff is the floor of level * 255 |
| Threshold.Binarize | ocr.js:86-92 | The value is 255 exactly when the luminance is at least the cutoff, and 0 exactly when it is below |
| Threshold.BinarizeFixed | ocr.js:86-93 | A black or white grey pixel produced by the filter binarizes to itself |
| Threshold.ThresholdedPixel | ocr.js:82-94 | For every complete pixel, R, G and B get one common value: 255 iff the luminance reaches the cutoff, 0 iff it does not; alpha is unchanged |
| Threshold.ThresholdedTwiceAt | ocr.js:82-94 | Every single byte is left alone by a second pass with the same cutoff |
| Threshold.ThresholdIdempotent | ocr.js:82-94 | A second pass with the same cutoff changes nothing |
| Threshold.CutoffBoundaryIsWhite | ocr.js:81-92 | Level 0.502 gives cutoff 128, and grey 128 exactly on that cutoff becomes white, because the test is "at least" |
| Threshold.WhiteStaysWhite | ocr.js:77-95 | With the exact luminance, an all-white buffer of whole pixels is unchanged for every cutoff up to 255, including the default level; in the source this holds for cutoffs up to 254 only, since the float sum of a white pixel falls just below 255 |
| Threshold.ThresholdFilter | ocr.js:77-95 | The buffer afterwards is the pass `Thresholded` of the old buffer, whose per-pixel meaning the lemmas above state |
| BlurKernel.ToInt32 | ocr.js:144 | ToInt32 of x lies in the signed 32-bit range, is congruent to the truncation of x modulo 2^32, and equals that truncation when it is in range |
| BlurKernel.ClampRadius | ocr.js:144-145 | The radius lies in 1 .. 248; for 0 <= r * 3.5 < 2^31 it is floor(r * 3.5) clamped to that range |
| BlurKernel.ClampRadiusExamples | ocr.js:144-145 | Requests 2, 0.25, -3 and 1000 give radii 7, 1, 1 and 248 |
| BlurKernel.KernelWeight | ocr.js:159-167 | Each weight lies in 0 .. R^2, and it is positive exactly strictly between taps 0 and 2R |
| BlurKernel.KernelProfile | ocr.js:159-167 | The kernel is symmetric about tap R, where it is R^2 and largest; it is strictly decreasing away from the centre and 0 at taps 0, 2R and 2R + 1 |
| BlurKernel.KernelCache.constructor | ocr.js:137-140 | Before the first build the radius is undefined (0) and the cache is in a valid state |
| BlurKernel.KernelCache.BuildBlurKernel | ocr.js:143-174 | Afterwards the cache holds the kernel and lookup table of the clamped radius, of size 2R + 2; on a cache hit nothing changes, otherwise both arrays are new |
| BlurKernel.FillKernel | ocr.js:150-172 | The kernel has size 2R + 2 with entry k = (R - abs(k - R))^2 on 0 .. 2R and 0 at 2R + 1; lookup row k holds kernel[k] * v for every byte v |
| Blur.TapSumBound | ocr.js:208-220 | A weighted sum of bytes lies between 0 and 255 times the sum of the weights used |
| Blur.Average | ocr.js:221-225 | The stored value v is the truncated quotient (v * weight <= total < (v + 1) * weight), hence a byte; it is 0 when no weight was summed |
| Blur.HorizontalWeightPositive | ocr.js:198-220 | The horizontal divisor is at least R^2 and so never 0, because the centre tap always lies inside the row |
| Blur.HorizontalWindowInRow | ocr.js:198-220 | Every horizontal tap reads a column inside its own row, and at least one tap is read |
| Blur.VerticalWeightZero | ocr.js:235-258 | The vertical divisor is 0 exactly when R - y >= height, and then no tap is summed |
| Blur.VerticalWindowInImage | ocr.js:235-258 | Every vertical tap reads a row inside the image |
| Blur.HorizontalRowsAt | ocr.js:221-227 | Entry y * width + x of a horizontal plane is the horizontal average at pixel (x, y) |
| Blur.VerticalRowsAt | ocr.js:259-265 | Entry y * width + x of the vertical pass's output packs the four vertical averages at (x, y) |
| Blur.HorizontalPointUniform | ocr.js:197-225 | The horizontal pass maps a one-colour plane to itself |
| Blur.VerticalPointUniform | ocr.js:234-263 | The vertical pass maps a one-colour plane to itself, except rows y <= R - height, which become 0 |
| Blur.HorizontalRowsUniform | ocr.js:195-228 | Each horizontal plane of a one-colour image holds that colour's channel everywhere |
| Blur.BlurUniformAt | ocr.js:195-268 | Pixel (x, y) of a blurred one-colour image is the colour itself, or 0 in rows y <= R - height |
| Blur.BlurUniformUnchanged | ocr.js:195-268 | An image of one nonzero colour comes back unchanged exactly when R < height |
| Blur.FourByFourRadiusTwo | ocr.js:177-270 | A 4 x 4 one-colour image with blur radius 2 gets kernel radius 7 and comes out all zero |
| Blur.ClippedWindowsDiffer | ocr.js:198-258 | The passes clip differently: on the line 0, 255, 0 with R = 2 the first pixel averages to 51 horizontally but to 0 vertically |
| Blur.PixelChannels | ocr.js:212-217 | The four bytes taken from pixel word k are entry k of its alpha, red, green and blue planes |
| Blur.HorizontalTaps | ocr.js:208-220 | Starting at tap i0 and column read0, the loop stops when the kernel or the row runs out, at tap min(2R + 2, i0 + width - read0), and returns the weight sum and the four channel sums `TapSum` of those taps |
| Blur.HorizontalSums | ocr.js:197-220 | The window start chosen for the pixel and the tap loop together give, for the pixel's horizontal window, the positive weight sum and the four channel sums `TapSum` |
| Blur.StorePixel | ocr.js:221-225 | Entry ri of each plane gets that channel's value; nothing else in the planes changes |
| Blur.HorizontalQuotient | ocr.js:221-225 | The quotient stored for a horizontal sum is a byte and equals the horizontal average |
| Blur.HorizontalPixel | ocr.js:197-225 | The four values computed for a pixel are its horizontal averages in the four channel planes |
| Blur.HorizontalRow | ocr.js:196-226 | One row of the horizontal pass writes that row's averages to all four planes and leaves earlier and later rows alone |
| Blur.HorizontalPass | ocr.js:187-228 | The four planes are new, distinct arrays holding exactly `HorizontalRows` of the packed image for the alpha, red, green and blue channels |
| Blur.VerticalSums | ocr.js:234-258 | The tap loop returns, for the pixel's vertical window including the short-window quirk above row R, the weight sum and the four channel sums |
| Blur.VerticalQuotient | ocr.js:259-263 | A zero weight sum gives channel 0 (NaN shifted); otherwise the quotient is a byte and equals the vertical average |
| Blur.VerticalPixel | ocr.js:234-263 | The word written for a pixel packs its four vertical averages |
| Blur.VerticalRow | ocr.js:233-264 | One row of the vertical pass writes that row's packed averages and leaves earlier and later rows alone |
| Blur.VerticalPass | ocr.js:229-268 | The packed words are exactly `VerticalRows` of the four planes |
| Blur.PackPixels | ocr.js:180-184 | A fresh array of width * height words, word j being getARGB of pixel j |
| Blur.BlurARGB | ocr.js:177-270 | The cache afterwards holds the clamped radius's kernel, and the buffer is the unpacked `Blurred` image of its packed pixels |

## Left out

- The page wiring is not part of this model, because it is DOM, file and promise plumbing around the filters: event handlers, `processImage`, `applyBinarization`, `preprocessImage`, `applyGaussianBlur`, `displayImage`, `startOCR` and `progressUpdate` (ocr.js:1-74, 98-134).
- The OCR engine call is an external library and is not modelled.
- The canvas's `getImageData`/`putImageData` are not modelled; the buffer is an array parameter.
- `canvas.width` and `canvas.height` become plain `width` and `height` parameters of `BlurARGB`.
- Threshold.Luminance: the source compares a floating-point sum of 0.2126 R + 0.7152 G + 0.0722 B. The model uses the exact scaled integer sum. They differ only where the exact luminance equals the cutoff and the float sum rounds just below it; there the model gives white and the source black. A white pixel is one such case: its float sum is 254.99999999999997, so `thresholdFilter(pixels, 1)` (cutoff 255) turns every white pixel black, where the model keeps it white. At the default cutoff 127 the colour (11, 174, 3), whose float sum is 126.99999999999999, is another.
- Threshold.Cutoff: `level * 255` is multiplied exactly as a real number; float rounding and a NaN or infinite level are not modelled.
- BlurKernel.ClampRadius: the requested radius is a real number, so a NaN or infinite `r` (which `| 0` would turn into 0) is not modelled. `r * 3.5` is also multiplied exactly, so the float rounding of the product is not modelled. For r = 5146971002709138 / 2^52, the double nearest 8/7, the exact product is 4 - 2^-52, which the model floors to 3; in IEEE arithmetic the product rounds to 4.0 and the source gets radius 4.
- The passes divide as floats and store through Int32 conversion. The model uses the integer quotient, which gives the same value because both operands are nonnegative integers below 2^53.
- NaN appears only as the vertical pass's `0 / 0`, modelled as channel value 0.
- An Int32Array holds the packed words as signed numbers; `Word` is the unsigned reading of the same 32 bits, which every mask and shift reads identically.
- The closure variables are module-level state shared by every call on the page. Here they are the fields of one `KernelCache` object that `BlurARGB` receives.
- `BlurARGB` allocates the planes `a2` .. `b2` inside `HorizontalPass` instead of before `buildBlurKernel`. Both allocate zero-filled arrays before either pass reads them, so the result is the same.
- The `break` statements at ocr.js:203-205 and ocr.js:239-241 leave the row loop when a row's first read lies past the image. That cannot happen for x < width and y < height. The model proves those branches dead instead of modelling them.
- A uniform image is a fixed point only when R < height. A 4 x 4 image blurred with radius 2 gets R = 7 and comes out all 0 (`Blur.FourByFourRadiusTwo`).
