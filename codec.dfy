/** Conversion between the canvas's four-byte R,G,B,A pixel layout and one packed
    A|R|G|B word per pixel (`getARGB` and `setPixels` in ocr.js).

    A Word is the unsigned reading of the 32 bits that the source keeps in an
    Int32Array. The source reads them back only through masks and shifts, so the
    signed reading it happens to store makes no difference. A mask followed by a
    right shift by 24, 16 or 8 is written here as division and remainder by the
    matching power of two.
 */
module PixelCodec {

  /** One channel value of the canvas's Uint8ClampedArray. */
  type Byte = x: int | 0 <= x < 0x100

  /** The 32 bits of one packed pixel, read as an unsigned number. */
  type Word = x: int | 0 <= x < 0x1_0000_0000

  datatype Channel = Alpha | Red | Green | Blue

  /** The word with `a` in bits 31-24, `r` in 23-16, `g` in 15-8 and `b` in 7-0. */
  function Pack(a: Byte, r: Byte, g: Byte, b: Byte): Word
  {
    a * 0x100_0000 + r * 0x1_0000 + g * 0x100 + b
  }

  /** `(c & 0xff000000) >>> 24`, `(c & 0x00ff0000) >>> 16`, `(c & 0x0000ff00) >>> 8`, `c & 0xff`. */
  function ChannelOf(c: Word, ch: Channel): Byte
  {
    match ch
    case Alpha => c / 0x100_0000
    case Red => c / 0x1_0000 % 0x100
    case Green => c / 0x100 % 0x100
    case Blue => c % 0x100
  }

  /** Extracting a channel from a packed word gives back the byte packed there. */
  lemma ChannelOfPack(a: Byte, r: Byte, g: Byte, b: Byte)
    ensures ChannelOf(Pack(a, r, g, b), Alpha) == a
    ensures ChannelOf(Pack(a, r, g, b), Red) == r
    ensures ChannelOf(Pack(a, r, g, b), Green) == g
    ensures ChannelOf(Pack(a, r, g, b), Blue) == b
  {
    var c: int := Pack(a, r, g, b);
    var high := (a as int) * 0x100 + r;
    var mid := high * 0x100 + g;
    assert c == mid * 0x100 + b;
    assert c % 0x100 == b && c / 0x100 == mid;
    assert mid % 0x100 == g && mid / 0x100 == high;
    assert high % 0x100 == r && high / 0x100 == a;
    assert c / 0x1_0000 == high by {
      assert c == high * 0x1_0000 + ((g as int) * 0x100 + b);
    }
    assert c / 0x100_0000 == a by {
      assert c == (a as int) * 0x100_0000 + ((r as int) * 0x1_0000 + (g as int) * 0x100 + b);
    }
  }

  /** Packing the four channels of a word gives back the word: no bit is lost. */
  lemma PackOfChannels(c: Word)
    ensures Pack(ChannelOf(c, Alpha), ChannelOf(c, Red), ChannelOf(c, Green), ChannelOf(c, Blue)) == c
  {
    var q1 := c / 0x100;
    assert c == q1 * 0x100 + c % 0x100;
    var q2 := q1 / 0x100;
    assert q1 == q2 * 0x100 + q1 % 0x100;
    var q3 := q2 / 0x100;
    assert q2 == q3 * 0x100 + q2 % 0x100;
    assert q3 == c / 0x100_0000;
    assert q2 == c / 0x1_0000;
  }

  /** The byte at index `k`; past the end of the typed array the source reads
      `undefined`, which every bitwise operator turns into 0. */
  function ByteAt(data: seq<Byte>, k: nat): Byte
  {
    if k < |data| then data[k] else 0
  }

  /** Which channel byte `k % 4` of a pixel holds: R, G, B, A in that order. */
  function LaneChannel(lane: nat): Channel
    requires lane < 4
  {
    if lane == 0 then Red else if lane == 1 then Green else if lane == 2 then Blue else Alpha
  }

  /** `getARGB(data, i)`: pixel `i`'s alpha byte (offset 4i+3) goes to bits 31-24,
      red (4i) to 23-16, green (4i+1) to 15-8 and blue (4i+2) to 7-0. The masks the
      source applies after each shift clear nothing, since every operand is a byte. */
  function GetARGB(data: seq<Byte>, i: nat): (c: Word)
    ensures ChannelOf(c, Alpha) == ByteAt(data, 4 * i + 3)
    ensures ChannelOf(c, Red) == ByteAt(data, 4 * i)
    ensures ChannelOf(c, Green) == ByteAt(data, 4 * i + 1)
    ensures ChannelOf(c, Blue) == ByteAt(data, 4 * i + 2)
  {
    var offset := i * 4;
    ChannelOfPack(ByteAt(data, offset + 3), ByteAt(data, offset), ByteAt(data, offset + 1), ByteAt(data, offset + 2));
    Pack(ByteAt(data, offset + 3), ByteAt(data, offset), ByteAt(data, offset + 1), ByteAt(data, offset + 2))
  }

  /** The packed words of the first `n` pixels, as `blurARGB`'s first loop builds them. */
  function PackAll(data: seq<Byte>, n: nat): (words: seq<Word>)
    ensures |words| == n
  {
    seq(n, j requires 0 <= j < n => GetARGB(data, j))
  }

  /** The buffer of length `len` that `setPixels` leaves behind: byte `k` is channel
      `LaneChannel(k % 4)` of word `k / 4`, and 0 where that word lies past the end
      of `words` (`undefined & mask` is 0). */
  function Unpacked(words: seq<Word>, len: nat): (bytes: seq<Byte>)
    ensures |bytes| == len
  {
    seq(len, k requires 0 <= k < len =>
      if k / 4 < |words| then ChannelOf(words[k / 4], LaneChannel(k % 4)) else 0)
  }

  /** Packing every pixel and unpacking the words again restores the buffer byte for
      byte, as long as enough pixels were packed to cover it. */
  lemma {:induction false} UnpackedPackAll(data: seq<Byte>, n: nat)
    requires |data| <= 4 * n
    ensures Unpacked(PackAll(data, n), |data|) == data
  {
    var words := PackAll(data, n);
    var bytes := Unpacked(words, |data|);
    forall k | 0 <= k < |data|
      ensures bytes[k] == data[k]
    {
      var i := k / 4;
      assert k == 4 * i + k % 4;
      assert words[i] == GetARGB(data, i);
    }
  }

  /** The same round trip read the other way: unpacking `n` words into a buffer of
      `4 * n` bytes and packing it again gives back the words. */
  lemma {:induction false} PackAllUnpacked(words: seq<Word>)
    ensures PackAll(Unpacked(words, 4 * |words|), |words|) == words
  {
    var bytes := Unpacked(words, 4 * |words|);
    var back := PackAll(bytes, |words|);
    forall i | 0 <= i < |words|
      ensures back[i] == words[i]
    {
      var c := words[i];
      assert (4 * i) / 4 == i && (4 * i + 1) / 4 == i && (4 * i + 2) / 4 == i && (4 * i + 3) / 4 == i;
      assert ChannelOf(back[i], Alpha) == ChannelOf(c, Alpha);
      assert ChannelOf(back[i], Red) == ChannelOf(c, Red);
      assert ChannelOf(back[i], Green) == ChannelOf(c, Green);
      assert ChannelOf(back[i], Blue) == ChannelOf(c, Blue);
      PackOfChannels(c);
      PackOfChannels(back[i]);
    }
  }

  /** `setPixels(pixels, data)`: the loop runs `i` up to `pixels.length`, four times
      the number of pixels, and writes the four channels of `data[i]` at offsets
      4i .. 4i+3. Writes past the end of the typed array are dropped, so every
      iteration with 4i >= pixels.length changes nothing. */
  method SetPixels(pixels: array<Byte>, data: array<Word>)
    modifies pixels
    ensures pixels[..] == Unpacked(data[..], pixels.Length)
  {
    ghost var target := Unpacked(data[..], pixels.Length);
    var i := 0;
    while i < pixels.Length
      invariant 0 <= i <= pixels.Length
      invariant forall k :: 0 <= k < pixels.Length ==>
        pixels[k] == if k < 4 * i then target[k] else old(pixels[k])
    {
      var offset := i * 4;
      var word: Word := if i < data.Length then data[i] else 0;
      if offset < pixels.Length {
        pixels[offset] := ChannelOf(word, Red);
      }
      if offset + 1 < pixels.Length {
        pixels[offset + 1] := ChannelOf(word, Green);
      }
      if offset + 2 < pixels.Length {
        pixels[offset + 2] := ChannelOf(word, Blue);
      }
      if offset + 3 < pixels.Length {
        pixels[offset + 3] := ChannelOf(word, Alpha);
      }
      i := i + 1;
    }
    assert pixels[..] == target;
  }
}
