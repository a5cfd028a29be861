/** The blur kernel of ocr.js (`buildBlurKernel`, ported from p5.js) and the
    single-slot cache that holds it between calls: the four closure variables
    `blurRadius`, `blurKernelSize`, `blurKernel` and `blurMult`.
 */
module BlurKernel {

  /** The largest kernel radius the builder accepts. */
  const MaxRadius := 248

  /** Truncation toward zero of a number, the first step of ToInt32
      (section 7.1.6 of ECMA-262). */
  function Truncate(x: real): (n: int)
    ensures x >= 0.0 ==> n as real <= x < n as real + 1.0
    ensures x < 0.0 ==> n as real - 1.0 < x <= n as real
  {
    if x >= 0.0 then x.Floor else -((-x).Floor)
  }

  /** `x | 0`: ToInt32 of a finite number, the truncation taken modulo 2^32 and read
      as a signed 32-bit integer. */
  function ToInt32(x: real): (n: int)
    ensures -0x8000_0000 <= n < 0x8000_0000
    ensures (n - Truncate(x)) % 0x1_0000_0000 == 0
    ensures -0x8000_0000 <= Truncate(x) < 0x8000_0000 ==> n == Truncate(x)
  {
    var m := Truncate(x) % 0x1_0000_0000;
    if m < 0x8000_0000 then m else m - 0x1_0000_0000
  }

  /** The radius the builder actually uses for a requested blur radius `r`:
      `(r * 3.5) | 0`, clamped to 1 .. 248. */
  function ClampRadius(r: real): (radius: int)
    ensures 1 <= radius <= MaxRadius
    ensures 0.0 <= r * 3.5 < 0x8000_0000 as real ==>
      radius == if (r * 3.5).Floor < 1 then 1 else if (r * 3.5).Floor > MaxRadius then MaxRadius else (r * 3.5).Floor
  {
    var radius := ToInt32(r * 3.5);
    if radius < 1 then 1 else if radius < MaxRadius then radius else MaxRadius
  }

  /** The radii that particular requests produce: 2 gives 7, a small or negative
      request gives the minimum 1, and a large one the maximum 248. */
  lemma ClampRadiusExamples()
    ensures ClampRadius(2.0) == 7
    ensures ClampRadius(0.25) == 1
    ensures ClampRadius(-3.0) == 1
    ensures ClampRadius(1000.0) == MaxRadius
  {
  }

  /** Entry `k` of the kernel of radius `R`: the squared triangle (R - |k - R|)^2
      on 0 .. 2R, which is 0 at both ends, and 0 past 2R. */
  function KernelWeight(R: int, k: int): (wt: int)
    requires 1 <= R
    ensures 0 <= wt <= R * R
    ensures (0 < k < 2 * R) <==> wt > 0
  {
    if 0 <= k <= 2 * R then
      var d := if k < R then R - k else k - R;
      SquareMonotone(R - d, R);
      if 0 < R - d then SquareMonotone(0, R - d); (R - d) * (R - d) else 0
    else 0
  }

  /** Squaring is strictly increasing on the naturals. */
  lemma SquareMonotone(a: int, b: int)
    requires 0 <= a <= b
    ensures a * a <= b * b
    ensures a < b ==> a * a < b * b
  {
    assert a * a <= a * b <= b * b;
    if a < b {
      assert a * b < b * b;
    }
  }

  /** The shape of the kernel: symmetric about the centre R, largest there (R^2),
      strictly decreasing away from it, and 0 at 0, 2R and 2R + 1. */
  lemma KernelProfile(R: int, k: int, k': int)
    requires 1 <= R
    ensures KernelWeight(R, R) == R * R
    ensures KernelWeight(R, 0) == 0 && KernelWeight(R, 2 * R) == 0 && KernelWeight(R, 2 * R + 1) == 0
    ensures 0 <= k <= 2 * R ==> KernelWeight(R, k) == KernelWeight(R, 2 * R - k)
    ensures KernelWeight(R, k) <= KernelWeight(R, R)
    ensures R <= k < k' <= 2 * R ==> KernelWeight(R, k) > KernelWeight(R, k')
    ensures 0 <= k < k' <= R ==> KernelWeight(R, k) < KernelWeight(R, k')
  {
    if R <= k < k' <= 2 * R {
      SquareMonotone(R - (k' - R), R - (k - R));
    }
    if 0 <= k < k' <= R {
      SquareMonotone(R - (R - k), R - (R - k'));
    }
  }

  /** The closure state of the blur filter. `blurRadius` is 0 until the first
      build; every built radius is at least 1. */
  class KernelCache {
    var blurRadius: int
    var blurKernelSize: int
    var blurKernel: array<int>
    /** Row `k` is the table `blurKernel[k] * v` for every byte value `v`. */
    var blurMult: array2<int>

    /** The cache holds the kernel of radius `R` and its lookup table. */
    ghost predicate Holds(R: int)
      reads this, blurKernel, blurMult
    {
      && 1 <= R <= MaxRadius
      && blurRadius == R
      && blurKernelSize == 2 * R + 2
      && blurKernel.Length == blurKernelSize
      && blurMult.Length0 == blurKernelSize && blurMult.Length1 == 256
      && (forall k {:trigger blurKernel[k]} :: 0 <= k < blurKernelSize ==> blurKernel[k] == KernelWeight(R, k))
      && (forall k, v {:trigger blurMult[k, v]} :: 0 <= k < blurKernelSize && 0 <= v < 256 ==> blurMult[k, v] == KernelWeight(R, k) * v)
    }

    /** Either nothing was built yet or the cache holds its radius's kernel. */
    ghost predicate Valid()
      reads this, blurKernel, blurMult
    {
      blurRadius == 0 || Holds(blurRadius)
    }

    /** The state before the first blur: every closure variable is undefined. */
    constructor()
      ensures blurRadius == 0 && Valid()
    {
      blurRadius := 0;
      blurKernelSize := 0;
      blurKernel := new int[0];
      blurMult := new int[0, 256];
    }

    /** `buildBlurKernel(r)`: on a cache hit (the clamped radius equals
        `blurRadius`) nothing changes; otherwise the four variables are replaced by
        the new radius, the size 2R + 2 and freshly filled arrays. */
    method BuildBlurKernel(r: real)
      requires Valid()
      modifies this
      ensures Holds(ClampRadius(r))
      ensures old(blurRadius) == ClampRadius(r) ==> unchanged(this)
      ensures old(blurRadius) != ClampRadius(r) ==> fresh(blurKernel) && fresh(blurMult)
    {
      var radius := ToInt32(r * 3.5);
      radius := if radius < 1 then 1 else if radius < MaxRadius then radius else MaxRadius;
      if blurRadius != radius {
        blurRadius := radius;
        blurKernelSize := (1 + blurRadius) * 2;
        blurKernel, blurMult := FillKernel(radius);
      }
    }
  }

  /** The rebuild branch of `buildBlurKernel`: zero-filled arrays of size 2R + 2
      (an Int32Array starts at 0) filled from the centre outwards, `radiusi`
      walking down from R - 1 while R + i walks up. Entries 0, 2R and 2R + 1 of
      the kernel are never written and stay 0. */
  method FillKernel(radius: int) returns (kernel: array<int>, mult: array2<int>)
    requires 1 <= radius <= MaxRadius
    ensures fresh(kernel) && fresh(mult)
    ensures kernel.Length == 2 * radius + 2
    ensures mult.Length0 == 2 * radius + 2 && mult.Length1 == 256
    ensures forall k :: 0 <= k < kernel.Length ==> kernel[k] == KernelWeight(radius, k)
    ensures forall k, v :: 0 <= k < mult.Length0 && 0 <= v < 256 ==> mult[k, v] == KernelWeight(radius, k) * v
  {
    var size := (1 + radius) * 2;
    kernel := new int[size](_ => 0);
    mult := new int[size, 256]((_, _) => 0);
    var i, radiusi := 1, radius - 1;
    while i < radius
      invariant 1 <= i <= radius && radiusi == radius - i
      invariant forall k :: 0 <= k < kernel.Length ==>
        kernel[k] == if radius - i < k < radius + i && k != radius then KernelWeight(radius, k) else 0
      invariant forall k, v :: 0 <= k < mult.Length0 && 0 <= v < 256 ==> mult[k, v] == kernel[k] * v
    {
      var bki := radiusi * radiusi;
      kernel[radius + i] := bki;
      kernel[radiusi] := bki;
      var j := 0;
      while j < 256
        modifies mult
        invariant 0 <= j <= 256
        invariant forall k, v :: 0 <= k < mult.Length0 && 0 <= v < 256 ==>
          mult[k, v] == if (k == radius + i || k == radiusi) && j <= v then 0 else kernel[k] * v
      {
        mult[radius + i, j] := bki * j;
        mult[radiusi, j] := bki * j;
        j := j + 1;
      }
      i, radiusi := i + 1, radiusi - 1;
    }
    var bk := radius * radius;
    kernel[radius] := bk;
    var k := 0;
    while k < 256
      modifies mult
      invariant 0 <= k <= 256
      invariant forall l, v :: 0 <= l < mult.Length0 && 0 <= v < 256 ==>
        mult[l, v] == if l == radius && k <= v then 0 else kernel[l] * v
    {
      mult[radius, k] := bk * k;
      k := k + 1;
    }
  }
}
