/**
 * The generic XImage layer of the macOS port: the descriptor built by
 * XCreateImage, per-depth pixel access, the byte copy that turns an XImage
 * into Core Graphics image data, and the channel permutation done by
 * XGetImage. Core Graphics itself is not modelled: its constructors are
 * represented by the descriptors handed to them.
 */
module MacImage {

  import opened Wrappers

  // ---------------------------------------------------------------------
  // Constants of the X protocol used by the port.

  const LSBFirst: int := 0
  const MSBFirst: int := 1
  const XYBitmap: int := 0
  const XYPixmap: int := 1
  const ZPixmap: int := 2

  /** 2^32, the range of a C `unsigned int`. */
  const U32: nat := 0x1_0000_0000

  // ---------------------------------------------------------------------
  // Arithmetic on naturals for the bitwise stride formula.

  function Pow2(n: nat): (r: nat)
    ensures r >= 1
  {
    if n == 0 then 1 else 2 * Pow2(n - 1)
  }

  /** Bitwise AND of two naturals. */
  function BitAnd(a: nat, b: nat): nat
  {
    if a == 0 || b == 0 then 0
    else 2 * BitAnd(a / 2, b / 2) + (if a % 2 == 1 && b % 2 == 1 then 1 else 0)
  }

  lemma {:induction false} BitAndAllOnes(q: nat, n: nat)
    requires q < Pow2(n)
    ensures BitAnd(q, Pow2(n) - 1) == q
  {
    if n > 0 && q > 0 {
      BitAndAllOnes(q / 2, n - 1);
    }
  }

  /** Splitting q mod 2^j into its low bit and the rest. */
  lemma ModPow2Step(q: nat, j: nat)
    requires j > 0
    ensures q % Pow2(j) == 2 * ((q / 2) % Pow2(j - 1)) + q % 2
    ensures q / Pow2(j) == (q / 2) / Pow2(j - 1)
  {
    var p := Pow2(j - 1);
    var h := q / 2;
    var a, b := h / p, h % p;
    assert h == p * a + b;
    assert q == 2 * h + q % 2;
    assert q == Pow2(j) * a + (2 * b + q % 2);
    DivModUnique(q, Pow2(j), a, 2 * b + q % 2);
  }

  lemma DivModUnique(q: int, d: int, a: int, r: int)
    requires d > 0 && 0 <= r < d && q == d * a + r
    ensures q / d == a && q % d == r
  {
    var a', r' := q / d, q % d;
    assert q == d * a' + r';
    if a' > a {
      assert d * a' >= d * (a + 1) by { MulMonotone(d, a + 1, a'); }
    } else if a' < a {
      assert d * a >= d * (a' + 1) by { MulMonotone(d, a' + 1, a); }
    }
  }

  lemma MulMonotone(d: int, x: int, y: int)
    requires d >= 0 && x <= y
    ensures d * x <= d * y
  {
    assert d * y - d * x == d * (y - x);
  }

  /**
   * Clearing the low j bits of a number below 2^n with the mask
   * 2^n - 2^j, that is ~(2^j - 1) in n-bit arithmetic, rounds it down to a
   * multiple of 2^j.
   */
  lemma {:induction false} BitAndClearsLowBits(q: nat, n: nat, j: nat)
    requires j <= n && q < Pow2(n)
    ensures Pow2(j) <= Pow2(n)
    ensures BitAnd(q, Pow2(n) - Pow2(j)) == q - q % Pow2(j)
  {
    Pow2Monotone(j, n);
    if j == 0 {
      BitAndAllOnes(q, n);
    } else if j == n {
      DivModUnique(q, Pow2(j), 0, q);
    } else if q == 0 {
      DivModUnique(0, Pow2(j), 0, 0);
    } else {
      HalfBelow(q, n);
      BitAndClearsLowBits(q / 2, n - 1, j - 1);
      ClearLowBitsStep(q, n, j);
    }
  }

  /** The inductive step: an even mask applies to q / 2 and the low bit of q drops out. */
  lemma ClearLowBitsStep(q: nat, n: nat, j: nat)
    requires 0 < j < n && q > 0 && Pow2(j - 1) <= Pow2(n - 1)
    requires BitAnd(q / 2, Pow2(n - 1) - Pow2(j - 1)) == q / 2 - (q / 2) % Pow2(j - 1)
    ensures Pow2(j) <= Pow2(n)
    ensures BitAnd(q, Pow2(n) - Pow2(j)) == q - q % Pow2(j)
  {
    var m' := Pow2(n - 1) - Pow2(j - 1);
    Pow2Monotone(j, n - 1);
    assert Pow2(n) - Pow2(j) == 2 * m';
    var h, b := q / 2, q % 2;
    assert q == 2 * h + b;
    BitAndStep(q, m');
    ModPow2Step(q, j);
    Regroup(BitAnd(q, Pow2(n) - Pow2(j)), BitAnd(h, m'), q, h, b, h % Pow2(j - 1), q % Pow2(j));
  }

  lemma HalfBelow(q: nat, n: nat)
    requires n > 0 && q < Pow2(n)
    ensures q / 2 < Pow2(n - 1)
  {
  }

  lemma Regroup(a: int, a': int, q: int, h: int, b: int, low: int, r: int)
    requires a == 2 * a' && a' == h - low && q == 2 * h + b && r == 2 * low + b
    ensures a == q - r
  {
  }

  /** An even mask drops the low bit of q. */
  lemma BitAndStep(q: nat, m': nat)
    requires q > 0 && m' > 0
    ensures BitAnd(q, 2 * m') == 2 * BitAnd(q / 2, m')
  {
    assert (2 * m') / 2 == m' && (2 * m') % 2 == 0;
  }

  /**
   * The bytes per line XCreateImage computes when the caller passes none:
   * ((width * bpp + (pad - 1)) >> 3) & ~((pad >> 3) - 1), in 32-bit unsigned
   * arithmetic (the product and the sum wrap around modulo 2^32).
   */
  function DefaultBytesPerLine(width: nat, bpp: nat, pad: int): nat
  {
    PaddedStride(width * bpp, pad)
  }

  /** The stride formula for a row of `bits` bits. */
  function PaddedStride(bits: nat, pad: int): nat
  {
    var sum := (bits + (pad - 1)) % U32;
    var notMask := U32 - 1 - ((pad / 8 - 1) % U32);
    BitAnd(sum / 8, notMask)
  }

  /**
   * For a pad of 8 * 2^j bits and no overflow, the default stride is the
   * smallest multiple of pad/8 bytes that holds width * bpp bits.
   */
  lemma DefaultBytesPerLineIsPaddedRow(width: nat, bpp: nat, j: nat)
    requires 8 * Pow2(j) < U32 / 2
    requires width * bpp + 8 * Pow2(j) - 1 < U32
    ensures var k, r := Pow2(j), DefaultBytesPerLine(width, bpp, 8 * Pow2(j));
      && r % k == 0
      && 8 * r >= width * bpp
      && 8 * (r - k) < width * bpp
  {
    var k := Pow2(j);
    var w := width * bpp;
    var q := (w + 8 * k - 1) / 8;
    StrideIsRoundDown(w, j);
    RoundDownBounds(w, k, q);
  }

  /** Without overflow the stride formula rounds the byte count down to a multiple of pad/8. */
  lemma StrideIsRoundDown(bits: nat, j: nat)
    requires 8 * Pow2(j) < U32 / 2
    requires bits + 8 * Pow2(j) - 1 < U32
    ensures var q := (bits + 8 * Pow2(j) - 1) / 8;
      PaddedStride(bits, 8 * Pow2(j)) == q - q % Pow2(j)
  {
    var k := Pow2(j);
    var pad := 8 * k;
    var sum := bits + (pad - 1);
    DivModUnique(sum, U32, 0, sum);
    DivModUnique(pad, 8, k, 0);
    DivModUnique(k - 1, U32, 0, k - 1);
    SmallExponent(j);
    var q := sum / 8;
    var notMask := U32 - 1 - ((pad / 8 - 1) % U32);
    assert notMask == U32 - k;
    PaddedStrideUnfold(bits, pad, q, notMask);
    MaskClearsLowBits(q, j, notMask);
  }

  lemma SmallExponent(j: nat)
    requires Pow2(j) < U32
    ensures j < 32
  {
    Pow2Of32();
    if j >= 32 {
      Pow2Monotone(32, j);
    }
  }

  /** The mask ~(2^j - 1) in 32 bits clears the low j bits. */
  lemma MaskClearsLowBits(q: nat, j: nat, notMask: nat)
    requires j < 32 && q < U32 && notMask == U32 - Pow2(j)
    ensures BitAnd(q, notMask) == q - q % Pow2(j)
  {
    Pow2Of32();
    BitAndClearsLowBits(q, 32, j);
  }

  lemma PaddedStrideUnfold(bits: nat, pad: int, q: nat, notMask: nat)
    requires q == (bits + (pad - 1)) % U32 / 8
    requires notMask == U32 - 1 - ((pad / 8 - 1) % U32)
    ensures PaddedStride(bits, pad) == BitAnd(q, notMask)
  {
  }

  /** Arithmetic behind the stride: rounding (w + 8k - 1) / 8 down to a multiple of k. */
  lemma RoundDownBounds(w: nat, k: nat, q: nat)
    requires k > 0 && q == (w + 8 * k - 1) / 8
    ensures (q - q % k) % k == 0
    ensures 8 * (q - q % k) >= w
    ensures 8 * (q - q % k - k) < w
  {
    DivModDef(q, k);
    MulMod(k, q / k);
    assert q - q % k == k * (q / k);
    DivModDef(w + 8 * k - 1, 8);
  }

  lemma DivNonNeg(q: int, d: int)
    requires q >= 0 && d > 0
    ensures q / d >= 0
  {
    DivModDef(q, d);
    if q / d < 0 {
      MulMonotone(d, q / d, -1);
    }
  }

  lemma DivModDef(q: int, d: int)
    requires d > 0
    ensures q == d * (q / d) + q % d && 0 <= q % d < d
  {
  }

  lemma {:induction false} Pow2Add(a: nat, b: nat)
    ensures Pow2(a + b) == Pow2(a) * Pow2(b)
  {
    if a > 0 {
      Pow2Add(a - 1, b);
    }
  }

  lemma Pow2Of32()
    ensures Pow2(32) == U32
  {
    assert Pow2(4) == 16 by {
      assert Pow2(1) == 2;
      assert Pow2(2) == 4;
      assert Pow2(3) == 8;
    }
    Pow2Add(4, 4);
    Pow2Add(8, 8);
    Pow2Add(16, 16);
  }

  lemma {:induction false} Pow2Monotone(a: nat, b: nat)
    requires a <= b
    ensures Pow2(a) <= Pow2(b)
  {
    if a < b {
      Pow2Monotone(a, b - 1);
    }
  }

  lemma MulMod(k: int, c: int)
    requires k > 0
    ensures (k * c) % k == 0
  {
    DivModUnique(k * c, k, c, 0);
  }

  // ---------------------------------------------------------------------
  // The image descriptor built by XCreateImage.

  /** The descriptor fields of an XImage, data pointer apart. */
  datatype Layout = Layout(
    width: nat, height: nat, depth: nat, xoffset: int, format: int,
    bitsPerPixel: nat, bitmapUnit: nat, bitmapPad: int, bytesPerLine: int,
    byteOrder: int, bitOrder: int,
    redMask: bv64, greenMask: bv64, blueMask: bv64)

  /**
   * The descriptor XCreateImage fills in (little-endian host). A zero
   * bitmap_pad selects 128-bit alignment; a zero bytes_per_line selects the
   * padded row length.
   */
  function CreateLayout(depth: nat, format: int, offset: int, width: nat, height: nat,
                        bitmapPad: int, bytesPerLine: int): (l: Layout)
    requires width < U32 && height < U32
    ensures l.bitsPerPixel == 1 || l.bitsPerPixel == 32
    ensures l.bitmapPad != 0
    ensures bytesPerLine != 0 ==> l.bytesPerLine == bytesPerLine
  {
    var bpp: nat := if format == ZPixmap then 32 else 1;
    var unit: nat := if format == ZPixmap then 32 else 8;
    var pad := if bitmapPad != 0 then bitmapPad else 128;
    var bpl := if bytesPerLine != 0 then bytesPerLine else DefaultBytesPerLine(width, bpp, pad);
    Layout(width, height, depth, offset, format, bpp, unit, pad, bpl,
           LSBFirst, LSBFirst, 0x00FF_0000, 0x0000_FF00, 0x0000_00FF)
  }

  /**
   * With no explicit bytes_per_line, a pad of 8 * 2^j bits (128 when the
   * caller passes 0) and no 32-bit overflow, each row is the shortest
   * multiple of pad/8 bytes that holds width * bits_per_pixel bits.
   */
  lemma CreateLayoutPadsRows(depth: nat, format: int, offset: int, width: nat, height: nat,
                             bitmapPad: int, j: nat)
    requires width < U32 && height < U32
    requires bitmapPad == 0 || bitmapPad == 8 * Pow2(j)
    requires bitmapPad == 0 ==> j == 4
    requires 8 * Pow2(j) < U32 / 2
    requires width * 32 + 8 * Pow2(j) - 1 < U32
    ensures var l := CreateLayout(depth, format, offset, width, height, bitmapPad, 0);
      var k, bits := Pow2(j), width * l.bitsPerPixel;
      && l.bitmapPad == 8 * k
      && l.bytesPerLine % k == 0
      && 8 * l.bytesPerLine >= bits
      && 8 * (l.bytesPerLine - k) < bits
  {
    var l := CreateLayout(depth, format, offset, width, height, bitmapPad, 0);
    if bitmapPad == 0 {
      assert Pow2(4) == 16 by {
        assert Pow2(1) == 2;
        assert Pow2(2) == 4;
        assert Pow2(3) == 8;
      }
    }
    assert l.bitmapPad == 8 * Pow2(j);
    DefaultBytesPerLineIsPaddedRow(width, l.bitsPerPixel, j);
  }

  /** ZPixmap images are 32 bits per pixel in 32-bit units, all others 1 bit in bytes. */
  lemma CreateLayoutFormat(depth: nat, format: int, offset: int, width: nat, height: nat,
                           bitmapPad: int, bytesPerLine: int)
    requires width < U32 && height < U32
    ensures var l := CreateLayout(depth, format, offset, width, height, bitmapPad, bytesPerLine);
      && (format == ZPixmap <==> l.bitsPerPixel == 32 && l.bitmapUnit == 32)
      && (format != ZPixmap <==> l.bitsPerPixel == 1 && l.bitmapUnit == 8)
      && (bitmapPad == 0 <==> l.bitmapPad == 128 && bitmapPad != 128)
      && l.width == width && l.height == height && l.xoffset == offset
  {
  }

  /** The XImage record: a descriptor and a possibly absent pixel buffer. */
  class XImage {
    var layout: Layout
    var data: array?<bv8>

    /** XCreateImage: the new image wraps the caller's buffer, which is not copied. */
    constructor (depth: nat, format: int, offset: int, buffer: array?<bv8>, width: nat, height: nat,
                 bitmapPad: int, bytesPerLine: int)
      requires width < U32 && height < U32
      ensures layout == CreateLayout(depth, format, offset, width, height, bitmapPad, bytesPerLine)
      ensures data == buffer
    {
      layout := CreateLayout(depth, format, offset, width, height, bitmapPad, bytesPerLine);
      data := buffer;
    }
  }

  // ---------------------------------------------------------------------
  // Pixel access.

  /** An 8-bit-per-channel colour, as handed to TkMacOSXRGBPixel. */
  datatype Rgb = Rgb(r: bv8, g: bv8, b: bv8)

  const Black: Rgb := Rgb(0, 0, 0)

  /** The byte holding pixel (x, y): y * bytes_per_line + ((xoffset + x) * bpp) / 8. */
  function PixelAddr(l: Layout, x: int, y: int): int
  {
    y * l.bytesPerLine + CDiv((l.xoffset + x) * l.bitsPerPixel, 8)
  }

  /** How many bytes a pixel access at this depth touches (0: depth not handled). */
  function AccessWidth(bpp: nat): nat
  {
    if bpp == 32 then 4
    else if bpp == 16 then 2
    else if bpp == 8 || bpp == 4 || bpp == 1 then 1
    else 0
  }

  /**
   * The access stays inside a buffer of n bytes, and at depth 1 the bit
   * selector 0x80 >> (x % 8) is a valid shift.
   */
  predicate InBounds(l: Layout, x: int, y: int, n: nat)
  {
    var a := PixelAddr(l, x, y);
    (AccessWidth(l.bitsPerPixel) > 0 ==> 0 <= a && a + AccessWidth(l.bitsPerPixel) <= n)
    && (l.bitsPerPixel == 1 ==> x >= 0)
  }

  /** The bit of a 1-bit pixel within its byte: 0x80 >> (x % 8). */
  function BitSelector(x: nat): bv8
  {
    0x80 >> (x % 8)
  }

  /** The colour of a 32-bit pixel read as a little-endian word: bits 16-23, 8-15, 0-7. */
  function Decode32(b0: bv8, b1: bv8, b2: bv8, b3: bv8): Rgb
  {
    var w: bv32 := b0 as bv32 | (b1 as bv32 << 8) | (b2 as bv32 << 16) | (b3 as bv32 << 24);
    Rgb(((w >> 16) & 0xff) as bv8, ((w >> 8) & 0xff) as bv8, (w & 0xff) as bv8)
  }

  /** The colour of a 16-bit pixel read as a little-endian word, 5 bits per channel. */
  function Decode16(lo: bv8, hi: bv8): Rgb
  {
    var w: bv16 := lo as bv16 | (hi as bv16 << 8);
    Rgb(((w >> 7) & 0xf8) as bv8, ((w >> 2) & 0xf8) as bv8, ((w << 3) & 0xf8) as bv8)
  }

  /** The colour of an 8-bit pixel, its 2-bit channels widened by repetition. */
  function Decode8(p: bv8): Rgb
  {
    var r, g, b := (p << 2) & 0xc0, (p << 4) & 0xc0, (p << 6) & 0xc0;
    Rgb(r | (r >> 2) | (r >> 4) | (r >> 6),
        g | (g >> 2) | (g >> 4) | (g >> 6),
        b | (b >> 2) | (b >> 4) | (b >> 6))
  }

  /** The colour of a 4-bit pixel: low nibble for odd x, high nibble for even x. */
  function Decode4(p: bv8, x: int): Rgb
  {
    var c := if x % 2 != 0 then p else p >> 4;
    Rgb(if c & 0x04 != 0 then 0xff else 0,
        if c & 0x02 != 0 then 0xff else 0,
        if c & 0x01 != 0 then 0xff else 0)
  }

  /** The colour of a 1-bit pixel: white when its bit is set. */
  function Decode1(p: bv8, x: nat): Rgb
  {
    var v: bv8 := if p & BitSelector(x) != 0 then 0xff else 0;
    Rgb(v, v, v)
  }

  /** ImageGetPixel on a present buffer: the channels the stored pixel decodes to. */
  function GetPixelBytes(l: Layout, d: seq<bv8>, x: int, y: int): Rgb
    requires InBounds(l, x, y, |d|)
  {
    var a := PixelAddr(l, x, y);
    match l.bitsPerPixel
    case 32 => Decode32(d[a], d[a + 1], d[a + 2], d[a + 3])
    case 16 => Decode16(d[a], d[a + 1])
    case 8 => Decode8(d[a])
    case 4 => Decode4(d[a], x)
    case 1 => Decode1(d[a], x)
    case _ => Black
  }

  /** The channels ImagePutPixel extracts from a pixel value through the image's masks. */
  function MaskedChannels(l: Layout, pixel: bv64): Rgb
  {
    Rgb((((pixel & l.redMask) >> 16) & 0xff) as bv8,
        (((pixel & l.greenMask) >> 8) & 0xff) as bv8,
        ((pixel & l.blueMask) & 0xff) as bv8)
  }

  /** Byte i (little-endian) of the 32-bit pixel word stored at depth 32. */
  function PixelByte(pixel: bv64, i: nat): bv8
    requires i < 4
  {
    var shifted := if i == 0 then pixel else if i == 1 then pixel >> 8
      else if i == 2 then pixel >> 16 else pixel >> 24;
    (shifted & 0xff) as bv8
  }

  /** The 16-bit word stored at depth 16: 5 bits per channel. */
  function Word16(c: Rgb): bv16
  {
    ((c.r as bv16 & 0xf8) << 7) | ((c.g as bv16 & 0xf8) << 2) | ((c.b as bv16 & 0xf8) >> 3)
  }

  /** The low and the high byte of a 16-bit word, stored in that order. */
  function LowByte(w: bv16): bv8
  {
    (w & 0xff) as bv8
  }

  function HighByte(w: bv16): bv8
  {
    (w >> 8) as bv8
  }

  /** The byte stored at depth 8: 2 bits per channel. */
  function Byte8(c: Rgb): bv8
  {
    ((c.r & 0xc0) >> 2) | ((c.g & 0xc0) >> 4) | ((c.b & 0xc0) >> 6)
  }

  /** The 3-bit code stored at depth 4: 1 bit per channel. */
  function Code4(c: Rgb): bv8
  {
    ((c.r & 0x80) >> 5) | ((c.g & 0x80) >> 6) | ((c.b & 0x80) >> 7)
  }

  /** The code written into the low nibble for odd x, the high nibble for even x. */
  function StoreNibble(prev: bv8, v: bv8, x: int): bv8
  {
    if x % 2 != 0 then (prev & 0xf0) | (v & 0x0f) else (prev & 0x0f) | ((v << 4) & 0xf0)
  }

  /** The selected bit is set when any channel has its top bit set, cleared otherwise. */
  function StoreBit(prev: bv8, c: Rgb, x: nat): bv8
  {
    if (c.r | c.g | c.b) & 0x80 != 0 then prev | BitSelector(x) else prev & !BitSelector(x)
  }

  /** ImagePutPixel on a present buffer: the buffer after storing the pixel. */
  function PutPixelBytes(l: Layout, d: seq<bv8>, x: int, y: int, pixel: bv64): (d': seq<bv8>)
    requires InBounds(l, x, y, |d|)
    ensures |d'| == |d|
  {
    var a := PixelAddr(l, x, y);
    var c := MaskedChannels(l, pixel);
    match l.bitsPerPixel
    case 32 =>
      d[a := PixelByte(pixel, 0)][a + 1 := PixelByte(pixel, 1)]
       [a + 2 := PixelByte(pixel, 2)][a + 3 := PixelByte(pixel, 3)]
    case 16 =>
      var w := Word16(c);
      d[a := LowByte(w)][a + 1 := HighByte(w)]
    case 8 => d[a := Byte8(c)]
    case 4 => d[a := StoreNibble(d[a], Code4(c), x)]
    case 1 => d[a := StoreBit(d[a], c, x)]
    case _ => d
  }

  /** ImageGetPixel: black when the image or its buffer is absent. */
  function ImageGetPixel(image: XImage?, x: int, y: int): (c: Rgb)
    reads image, if image != null then image.data else null
    requires image != null && image.data != null ==> InBounds(image.layout, x, y, image.data.Length)
    ensures image == null || image.data == null ==> c == Black
  {
    if image == null || image.data == null then Black
    else GetPixelBytes(image.layout, image.data[..], x, y)
  }

  /** ImagePutPixel: stores the pixel in place; without a buffer nothing changes. */
  method ImagePutPixel(image: XImage?, x: int, y: int, pixel: bv64)
    requires image != null && image.data != null ==> InBounds(image.layout, x, y, image.data.Length)
    modifies if image != null then image.data else null
    ensures image != null && image.data != null ==>
      image.data[..] == PutPixelBytes(image.layout, old(image.data[..]), x, y, pixel)
  {
    if image == null || image.data == null {
      return;
    }
    var l, d := image.layout, image.data;
    var a := PixelAddr(l, x, y);
    if l.bitsPerPixel == 32 {
      d[a] := PixelByte(pixel, 0);
      d[a + 1] := PixelByte(pixel, 1);
      d[a + 2] := PixelByte(pixel, 2);
      d[a + 3] := PixelByte(pixel, 3);
    } else {
      var c := MaskedChannels(l, pixel);
      if l.bitsPerPixel == 16 {
        var w := Word16(c);
        d[a] := LowByte(w);
        d[a + 1] := HighByte(w);
      } else if l.bitsPerPixel == 8 {
        d[a] := Byte8(c);
      } else if l.bitsPerPixel == 4 {
        d[a] := StoreNibble(d[a], Code4(c), x);
      } else if l.bitsPerPixel == 1 {
        d[a] := StoreBit(d[a], c, x);
      }
    }
  }

  // ---------------------------------------------------------------------
  // What a stored pixel reads back as: an independent statement per depth.

  /** Two bits of a channel widened to eight by repetition: 00, 55, aa, ff. */
  function Widen2(v: bv8): bv8
  {
    (v >> 6) * 0x55
  }

  /** A channel reduced to its top bit and widened back: 00 or ff. */
  function Widen1(v: bv8): bv8
  {
    if v >= 0x80 then 0xff else 0
  }

  /** The colour a channel triple reads back as after being stored at depth bpp. */
  function Quantize(bpp: nat, c: Rgb): Rgb
  {
    match bpp
    case 16 => Rgb(c.r / 8 * 8, c.g / 8 * 8, c.b / 8 * 8)
    case 8 => Rgb(Widen2(c.r), Widen2(c.g), Widen2(c.b))
    case 4 => Rgb(Widen1(c.r), Widen1(c.g), Widen1(c.b))
    case 1 =>
      var v := if c.r >= 0x80 || c.g >= 0x80 || c.b >= 0x80 then 0xff else 0;
      Rgb(v, v, v)
    case _ => Black
  }

  /** At 32 bits the pixel's bits 16-23, 8-15 and 0-7 come back unchanged. */
  lemma RoundTrip32(l: Layout, d: seq<bv8>, x: int, y: int, pixel: bv64)
    requires l.bitsPerPixel == 32 && InBounds(l, x, y, |d|)
    ensures GetPixelBytes(l, PutPixelBytes(l, d, x, y, pixel), x, y)
      == Rgb(((pixel >> 16) & 0xff) as bv8, ((pixel >> 8) & 0xff) as bv8, (pixel & 0xff) as bv8)
  {
    var a := PixelAddr(l, x, y);
    var d' := PutPixelBytes(l, d, x, y, pixel);
    assert d'[a] == PixelByte(pixel, 0) && d'[a + 1] == PixelByte(pixel, 1)
      && d'[a + 2] == PixelByte(pixel, 2) && d'[a + 3] == PixelByte(pixel, 3);
    Decode32Bytes(pixel);
  }

  lemma Decode32Bytes(pixel: bv64)
    ensures Decode32(PixelByte(pixel, 0), PixelByte(pixel, 1), PixelByte(pixel, 2), PixelByte(pixel, 3))
      == Rgb(((pixel >> 16) & 0xff) as bv8, ((pixel >> 8) & 0xff) as bv8, (pixel & 0xff) as bv8)
  {
  }

  /** At 16, 8, 4 and 1 bits the masked channels come back quantised to the depth. */
  lemma RoundTrip(l: Layout, d: seq<bv8>, x: int, y: int, pixel: bv64)
    requires l.bitsPerPixel in {16, 8, 4, 1} && InBounds(l, x, y, |d|)
    ensures GetPixelBytes(l, PutPixelBytes(l, d, x, y, pixel), x, y)
      == Quantize(l.bitsPerPixel, MaskedChannels(l, pixel))
  {
    var c := MaskedChannels(l, pixel);
    var a := PixelAddr(l, x, y);
    if l.bitsPerPixel == 16 {
      RoundTrip16(l, d, x, y, pixel);
    } else if l.bitsPerPixel == 8 {
      assert PutPixelBytes(l, d, x, y, pixel) == d[a := Byte8(c)];
      Decode8Byte(c);
    } else if l.bitsPerPixel == 4 {
      assert PutPixelBytes(l, d, x, y, pixel) == d[a := StoreNibble(d[a], Code4(c), x)];
      Decode4Nibble(d[a], c, x);
    } else {
      assert PutPixelBytes(l, d, x, y, pixel) == d[a := StoreBit(d[a], c, x)];
      Decode1Bit(d[a], c, x);
    }
  }

  lemma RoundTrip16(l: Layout, d: seq<bv8>, x: int, y: int, pixel: bv64)
    requires l.bitsPerPixel == 16 && InBounds(l, x, y, |d|)
    ensures GetPixelBytes(l, PutPixelBytes(l, d, x, y, pixel), x, y)
      == Quantize(16, MaskedChannels(l, pixel))
  {
    var c := MaskedChannels(l, pixel);
    var a := PixelAddr(l, x, y);
    var d' := PutPixelBytes(l, d, x, y, pixel);
    assert d'[a] == LowByte(Word16(c)) && d'[a + 1] == HighByte(Word16(c)) by {
      Put16Bytes(l, d, x, y, pixel);
    }
    assert GetPixelBytes(l, d', x, y) == Decode16(d'[a], d'[a + 1]) by {
      Get16Bytes(l, d', x, y);
    }
    Decode16Word(c);
  }

  lemma Put16Bytes(l: Layout, d: seq<bv8>, x: int, y: int, pixel: bv64)
    requires l.bitsPerPixel == 16 && InBounds(l, x, y, |d|)
    ensures var a, w := PixelAddr(l, x, y), Word16(MaskedChannels(l, pixel));
      PutPixelBytes(l, d, x, y, pixel) == d[a := LowByte(w)][a + 1 := HighByte(w)]
  {
  }

  lemma Get16Bytes(l: Layout, d: seq<bv8>, x: int, y: int)
    requires l.bitsPerPixel == 16 && InBounds(l, x, y, |d|)
    ensures var a := PixelAddr(l, x, y);
      GetPixelBytes(l, d, x, y) == Decode16(d[a], d[a + 1])
  {
  }

  lemma Decode16Word(c: Rgb)
    ensures var w := Word16(c);
      Decode16(LowByte(w), HighByte(w)) == Quantize(16, c)
  {
  }

  lemma Decode8Byte(c: Rgb)
    ensures Decode8(Byte8(c)) == Quantize(8, c)
  {
  }

  lemma Decode4Nibble(prev: bv8, c: Rgb, x: int)
    ensures Decode4(StoreNibble(prev, Code4(c), x), x) == Quantize(4, c)
  {
  }

  lemma Decode1Bit(prev: bv8, c: Rgb, x: nat)
    ensures Decode1(StoreBit(prev, c, x), x) == Quantize(1, c)
  {
  }

  /** Storing a pixel changes only the bytes its access covers. */
  lemma PutChangesOnlyItsBytes(l: Layout, d: seq<bv8>, x: int, y: int, pixel: bv64, i: int)
    requires InBounds(l, x, y, |d|) && 0 <= i < |d|
    requires !(PixelAddr(l, x, y) <= i < PixelAddr(l, x, y) + AccessWidth(l.bitsPerPixel))
    ensures PutPixelBytes(l, d, x, y, pixel)[i] == d[i]
  {
  }

  /** At depth 4 only the selected nibble of the addressed byte changes. */
  lemma PutNibbleKeepsOtherNibble(l: Layout, d: seq<bv8>, x: int, y: int, pixel: bv64)
    requires l.bitsPerPixel == 4 && InBounds(l, x, y, |d|)
    ensures var a, keep: bv8 := PixelAddr(l, x, y), if x % 2 != 0 then 0xf0 else 0x0f;
      PutPixelBytes(l, d, x, y, pixel)[a] & keep == d[a] & keep
  {
  }

  /** At depth 1 only the selected bit of the addressed byte changes. */
  lemma PutBitKeepsOtherBits(l: Layout, d: seq<bv8>, x: int, y: int, pixel: bv64)
    requires l.bitsPerPixel == 1 && InBounds(l, x, y, |d|)
    ensures var a := PixelAddr(l, x, y);
      PutPixelBytes(l, d, x, y, pixel)[a] & !BitSelector(x) == d[a] & !BitSelector(x)
  {
  }

  /**
   * Pixels of one row do not share storage: storing pixel x leaves what
   * every other pixel x' of the row reads back unchanged, at every depth.
   */
  lemma PutLeavesOtherPixels(l: Layout, d: seq<bv8>, x: int, x': int, y: int, pixel: bv64)
    requires l.bitsPerPixel in {32, 16, 8, 4, 1}
    requires InBounds(l, x, y, |d|) && InBounds(l, x', y, |d|) && x != x'
    requires l.xoffset + x >= 0 && l.xoffset + x' >= 0
    ensures GetPixelBytes(l, PutPixelBytes(l, d, x, y, pixel), x', y) == GetPixelBytes(l, d, x', y)
  {
    var a, a' := PixelAddr(l, x, y), PixelAddr(l, x', y);
    if l.bitsPerPixel == 4 && a == a' {
      OtherNibble(l, d, x, x', y, pixel);
    } else if l.bitsPerPixel == 1 && a == a' {
      OtherBit(l, d, x, x', y, pixel);
    } else {
      OtherBytes(l, d, x, x', y, pixel);
    }
  }

  lemma OtherNibble(l: Layout, d: seq<bv8>, x: int, x': int, y: int, pixel: bv64)
    requires l.bitsPerPixel == 4 && PixelAddr(l, x, y) == PixelAddr(l, x', y)
    requires InBounds(l, x, y, |d|) && x != x' && l.xoffset + x >= 0 && l.xoffset + x' >= 0
    ensures GetPixelBytes(l, PutPixelBytes(l, d, x, y, pixel), x', y) == GetPixelBytes(l, d, x', y)
  {
    assert (x % 2 != 0) != (x' % 2 != 0) by {
      SameByteNibbles(l.xoffset, x, x');
    }
  }

  lemma OtherBit(l: Layout, d: seq<bv8>, x: int, x': int, y: int, pixel: bv64)
    requires l.bitsPerPixel == 1 && PixelAddr(l, x, y) == PixelAddr(l, x', y)
    requires InBounds(l, x, y, |d|) && InBounds(l, x', y, |d|) && x != x'
    requires l.xoffset + x >= 0 && l.xoffset + x' >= 0
    ensures GetPixelBytes(l, PutPixelBytes(l, d, x, y, pixel), x', y) == GetPixelBytes(l, d, x', y)
  {
    var a := PixelAddr(l, x, y);
    var c := MaskedChannels(l, pixel);
    assert x % 8 != x' % 8 by {
      SameByteBits(l.xoffset, x, x');
    }
    BitSelectorsDisjoint(x, x');
    assert PutPixelBytes(l, d, x, y, pixel) == d[a := StoreBit(d[a], c, x)];
    KeepOtherBit(d[a], (c.r | c.g | c.b) & 0x80 != 0, BitSelector(x), BitSelector(x'));
  }

  /** Setting or clearing the bit s leaves a disjoint bit s' as it was. */
  lemma KeepOtherBit(p: bv8, on: bool, s: bv8, s': bv8)
    requires s & s' == 0
    ensures ((if on then p | s else p & !s) & s' != 0) == (p & s' != 0)
  {
  }

  lemma OtherBytes(l: Layout, d: seq<bv8>, x: int, x': int, y: int, pixel: bv64)
    requires l.bitsPerPixel in {32, 16, 8, 4, 1}
    requires InBounds(l, x, y, |d|) && InBounds(l, x', y, |d|) && x != x'
    requires l.xoffset + x >= 0 && l.xoffset + x' >= 0
    requires l.bitsPerPixel in {4, 1} ==> PixelAddr(l, x, y) != PixelAddr(l, x', y)
    ensures GetPixelBytes(l, PutPixelBytes(l, d, x, y, pixel), x', y) == GetPixelBytes(l, d, x', y)
  {
    var a, a' := PixelAddr(l, x, y), PixelAddr(l, x', y);
    var d' := PutPixelBytes(l, d, x, y, pixel);
    var w := AccessWidth(l.bitsPerPixel);
    assert a + w <= a' || a' + w <= a by {
      DisjointAccess(l, x, x', y);
    }
    forall i | a' <= i < a' + w
      ensures d'[i] == d[i]
    {
      PutChangesOnlyItsBytes(l, d, x, y, pixel, i);
    }
    GetReadsOnlyItsBytes(l, d', d, x', y);
  }

  lemma SameByteNibbles(o: int, x: int, x': int)
    requires o + x >= 0 && o + x' >= 0 && x != x'
    requires (o + x) * 4 / 8 == (o + x') * 4 / 8
    ensures (x % 2 != 0) != (x' % 2 != 0)
  {
    assert (o + x) * 4 / 8 == (o + x) / 2;
    assert (o + x') * 4 / 8 == (o + x') / 2;
  }

  lemma SameByteBits(o: int, x: int, x': int)
    requires o + x >= 0 && o + x' >= 0 && x != x' && x >= 0 && x' >= 0
    requires (o + x) / 8 == (o + x') / 8
    ensures x % 8 != x' % 8
  {
  }

  lemma BitSelectorsDisjoint(x: nat, x': nat)
    requires x % 8 != x' % 8
    ensures BitSelector(x) & BitSelector(x') == 0
  {
  }

  /** At whole-byte depths, or in different bytes, two pixels' accesses do not overlap. */
  lemma DisjointAccess(l: Layout, x: int, x': int, y: int)
    requires l.bitsPerPixel in {32, 16, 8, 4, 1}
    requires l.xoffset + x >= 0 && l.xoffset + x' >= 0 && x != x'
    requires l.bitsPerPixel in {4, 1} ==> PixelAddr(l, x, y) != PixelAddr(l, x', y)
    ensures var a, a', w := PixelAddr(l, x, y), PixelAddr(l, x', y), AccessWidth(l.bitsPerPixel);
      a + w <= a' || a' + w <= a
  {
    var bpp := l.bitsPerPixel;
    var o := l.xoffset;
    if bpp in {32, 16, 8} {
      var k := bpp / 8;
      assert (o + x) * bpp / 8 == (o + x) * k by { DivModUnique((o + x) * bpp, 8, (o + x) * k, 0); }
      assert (o + x') * bpp / 8 == (o + x') * k by { DivModUnique((o + x') * bpp, 8, (o + x') * k, 0); }
      if x < x' {
        MulMonotone(k, o + x + 1, o + x');
      } else {
        MulMonotone(k, o + x' + 1, o + x);
      }
    }
  }

  /** Both pixel accessors read nothing but the bytes their access covers. */
  lemma GetReadsOnlyItsBytes(l: Layout, d: seq<bv8>, d': seq<bv8>, x: int, y: int)
    requires InBounds(l, x, y, |d|) && |d'| == |d|
    requires forall i :: PixelAddr(l, x, y) <= i < PixelAddr(l, x, y) + AccessWidth(l.bitsPerPixel) ==>
               d'[i] == d[i]
    ensures GetPixelBytes(l, d', x, y) == GetPixelBytes(l, d, x, y)
  {
    var a := PixelAddr(l, x, y);
    if AccessWidth(l.bitsPerPixel) > 0 {
      assert d'[a] == d[a];
    }
    if l.bitsPerPixel == 32 {
      assert d'[a + 1] == d[a + 1] && d'[a + 2] == d[a + 2] && d'[a + 3] == d[a + 3];
    }
    if l.bitsPerPixel == 16 {
      assert d'[a + 1] == d[a + 1];
    }
  }

  // ---------------------------------------------------------------------
  // TkMacOSXCreateCGImageWithXImage: the data handed to Core Graphics.

  /** Bit i of a byte, bit 0 being the least significant. */
  predicate Bit(b: bv8, i: nat)
    requires i < 8
  {
    (b >> i) & 1 == 1
  }

  /** xBitReverseTable: the byte with its bit order reversed. */
  function BitReverse(b: bv8): (r: bv8)
    ensures forall i :: 0 <= i < 8 ==> (Bit(r, i) <==> Bit(b, 7 - i))
  {
    ((b & 0x01) << 7) | ((b & 0x02) << 5) | ((b & 0x04) << 3) | ((b & 0x08) << 1)
    | ((b & 0x10) >> 1) | ((b & 0x20) >> 3) | ((b & 0x40) >> 5) | ((b & 0x80) >> 7)
  }

  lemma BitReverseInvolution(b: bv8)
    ensures BitReverse(BitReverse(b)) == b
  {
  }

  /**
   * The mask bytes of a 1-bit image: len bytes from the buffer, each bit
   * reversed unless the image's bit order is already MSBFirst.
   */
  function MaskBytes(bitOrder: int, src: seq<bv8>): (m: seq<bv8>)
    ensures |m| == |src|
    ensures forall i :: 0 <= i < |src| ==> m[i] == if bitOrder != MSBFirst then BitReverse(src[i]) else src[i]
  {
    if bitOrder != MSBFirst then seq(|src|, i requires 0 <= i < |src| => BitReverse(src[i])) else src
  }

  /** Reading LSB-first mask bytes back through the reverse table gives the source. */
  lemma MaskBytesInvertible(src: seq<bv8>)
    ensures MaskBytes(LSBFirst, MaskBytes(LSBFirst, src)) == src
  {
    var m := MaskBytes(LSBFirst, MaskBytes(LSBFirst, src));
    forall i | 0 <= i < |src|
      ensures m[i] == src[i]
    {
      BitReverseInvolution(src[i]);
    }
  }

  /** The bytes of the image handed to Core Graphics: len = bytes_per_line * height. */
  function ImageByteCount(l: Layout): int
  {
    l.bytesPerLine * l.height
  }

  // Core Graphics bitmap-info byte-order flags.
  const ByteOrder32Little: bv32 := 0x2000
  const ByteOrder32Big: bv32 := 0x4000

  /** What CGImageMaskCreate or CGImageCreate is handed. */
  datatype CGImage = CGImage(
    width: nat, height: nat, bitsPerComponent: nat, bitsPerPixel: nat, bytesPerRow: int,
    isMask: bool, decodeInverted: bool, bitmapInfo: bv32, bytes: seq<bv8>)

  /** The buffer slice the conversion copies lies inside the buffer. */
  predicate SliceInBuffer(l: Layout, n: nat)
  {
    0 <= l.xoffset && 0 <= ImageByteCount(l) && l.xoffset + ImageByteCount(l) <= n
  }

  /** Whether the conversion reads the buffer at all. */
  predicate ConversionCopies(l: Layout)
  {
    l.bitsPerPixel == 1
    || (l.format == ZPixmap && l.bitsPerPixel == 32 && !(l.width == 0 && l.height == 0))
  }

  /**
   * TkMacOSXCreateCGImageWithXImage: a 1-bit image becomes a mask with
   * inverted decode; a 32-bit ZPixmap becomes a colour image whose bytes are
   * copied verbatim; a 0x0 colour image and every other kind give no image.
   */
  function CreateCGImage(l: Layout, d: seq<bv8>, alphaInfo: bv32): Option<CGImage>
    requires ConversionCopies(l) ==> SliceInBuffer(l, |d|)
  {
    var len := ImageByteCount(l);
    if l.bitsPerPixel == 1 then
      var src := d[l.xoffset .. l.xoffset + len];
      Some(CGImage(l.width, l.height, 1, 1, l.bytesPerLine, true, true, 0, MaskBytes(l.bitOrder, src)))
    else if l.format == ZPixmap && l.bitsPerPixel == 32 then
      if l.width == 0 && l.height == 0 then None
      else
        var order := if l.byteOrder == MSBFirst then ByteOrder32Little else ByteOrder32Big;
        Some(CGImage(l.width, l.height, 8, 32, l.bytesPerLine, false, false, order | alphaInfo,
                     d[l.xoffset .. l.xoffset + len]))
    else None
  }

  /** The three outcomes of the conversion, stated against the buffer. */
  lemma CreateCGImageCases(l: Layout, d: seq<bv8>, alphaInfo: bv32)
    requires ConversionCopies(l) ==> SliceInBuffer(l, |d|)
    requires alphaInfo & 0x7000 == 0
    ensures var img, len := CreateCGImage(l, d, alphaInfo), ImageByteCount(l);
      && (img.None? <==> !ConversionCopies(l))
      && (l.bitsPerPixel == 1 ==>
            && img.Some? && img.value.isMask && |img.value.bytes| == len
            && forall i :: 0 <= i < len ==>
                 img.value.bytes[i] == if l.bitOrder != MSBFirst then BitReverse(d[l.xoffset + i])
                                       else d[l.xoffset + i])
      && (img.Some? && l.bitsPerPixel == 32 ==>
            && !img.value.isMask
            && img.value.bytes == d[l.xoffset .. l.xoffset + len]
            && img.value.bitmapInfo & 0x7000
               == if l.byteOrder == MSBFirst then ByteOrder32Little else ByteOrder32Big)
  {
  }

  /**
   * The copy loop of the 1-bit case: len bytes from src[from..] into a new
   * buffer, through the reverse table unless the bit order is MSBFirst.
   */
  method CopyMaskData(src: array<bv8>, from: nat, len: nat, bitOrder: int) returns (dst: array<bv8>)
    requires from + len <= src.Length
    ensures dst.Length == len
    ensures dst[..] == MaskBytes(bitOrder, src[from .. from + len])
  {
    dst := new bv8[len];
    var k := 0;
    while k < len
      invariant 0 <= k <= len
      invariant forall i :: 0 <= i < k ==>
        dst[i] == if bitOrder != MSBFirst then BitReverse(src[from + i]) else src[from + i]
    {
      dst[k] := if bitOrder != MSBFirst then BitReverse(src[from + k]) else src[from + k];
      k := k + 1;
    }
  }

  /**
   * TkMacOSXCreateCGImageWithXImage on an image object: the 1-bit case runs
   * the copy loop; the image is not modified.
   */
  method CreateCGImageWithXImage(image: XImage, alphaInfo: bv32) returns (img: Option<CGImage>)
    requires image.data != null
    requires ConversionCopies(image.layout) ==> SliceInBuffer(image.layout, image.data.Length)
    ensures img == CreateCGImage(image.layout, image.data[..], alphaInfo)
  {
    var l := image.layout;
    if l.bitsPerPixel == 1 {
      var len := ImageByteCount(l);
      var mask := CopyMaskData(image.data, l.xoffset, len, l.bitOrder);
      MaskImageOf(l, image.data[..], alphaInfo, mask[..]);
      img := Some(CGImage(l.width, l.height, 1, 1, l.bytesPerLine, true, true, 0, mask[..]));
    } else {
      img := CreateCGImage(l, image.data[..], alphaInfo);
    }
  }

  lemma MaskImageOf(l: Layout, d: seq<bv8>, alphaInfo: bv32, mask: seq<bv8>)
    requires l.bitsPerPixel == 1 && SliceInBuffer(l, |d|)
    requires mask == MaskBytes(l.bitOrder, d[l.xoffset .. l.xoffset + ImageByteCount(l)])
    ensures CreateCGImage(l, d, alphaInfo)
      == Some(CGImage(l.width, l.height, 1, 1, l.bytesPerLine, true, true, 0, mask))
  {
  }

  // ---------------------------------------------------------------------
  // XGetImage: the in-place channel permutation of the captured bitmap.

  /** Where R, G, B and A sit inside a captured pixel: BGRA for format 0, ABGR for format 1. */
  function PixelOrder(bitmapFormat: nat): seq<nat>
  {
    if bitmapFormat == 0 then [2, 1, 0, 3] else [3, 2, 1, 0]
  }

  /** Byte i lies in the pixel area of its row (the first 4 * width bytes). */
  predicate InPixelArea(i: nat, width: nat, bpr: nat)
    requires bpr > 0
  {
    i % bpr < 4 * width
  }

  /** The first byte of the pixel byte i belongs to, and which of its four bytes i is. */
  function PixelStart(i: nat, bpr: nat): nat
    requires bpr > 0
  {
    ModAtMost(i, bpr);
    ModAtMost(i % bpr, 4);
    i - i % bpr % 4
  }

  lemma ModAtMost(a: nat, b: nat)
    requires b > 0
    ensures a % b <= a
  {
    DivModDef(a, b);
    if a / b < 0 {
      assert false;
    } else if a / b > 0 {
      MulMonotone(b, 1, a / b);
    }
  }

  function Channel(i: nat, bpr: nat): nat
    requires bpr > 0
  {
    i % bpr % 4
  }

  /**
   * Byte i of the bitmap after the permutation: in the pixel area of each
   * row, byte c of a pixel is taken from position order[c] of the same
   * pixel; row padding keeps its value.
   */
  function PermutedByte(d: seq<bv8>, width: nat, height: nat, bpr: nat, order: seq<nat>, i: nat): bv8
    requires bpr >= 4 * width && bpr > 0 && |d| == bpr * height
    requires |order| == 4 && forall c :: 0 <= c < 4 ==> order[c] < 4
    requires i < |d|
  {
    if InPixelArea(i, width, bpr) then
      PixelInRow(i, width, height, bpr);
      d[PixelStart(i, bpr) + order[Channel(i, bpr)]]
    else d[i]
  }

  /** The first k bytes of the permuted bitmap. */
  function PermutedPrefix(d: seq<bv8>, width: nat, height: nat, bpr: nat, order: seq<nat>, k: nat)
    : (p: seq<bv8>)
    requires bpr >= 4 * width && bpr > 0 && |d| == bpr * height
    requires |order| == 4 && forall c :: 0 <= c < 4 ==> order[c] < 4
    requires k <= |d|
    ensures |p| == k
  {
    if k == 0 then []
    else PermutedPrefix(d, width, height, bpr, order, k - 1) + [PermutedByte(d, width, height, bpr, order, k - 1)]
  }

  /** The whole bitmap after the permutation. */
  function Permuted(d: seq<bv8>, width: nat, height: nat, bpr: nat, order: seq<nat>): (p: seq<bv8>)
    requires bpr >= 4 * width && bpr > 0 && |d| == bpr * height
    requires |order| == 4 && forall c :: 0 <= c < 4 ==> order[c] < 4
    ensures |p| == |d|
  {
    PermutedPrefix(d, width, height, bpr, order, |d|)
  }

  lemma {:induction false} PermutedPrefixAt(d: seq<bv8>, width: nat, height: nat, bpr: nat,
                                            order: seq<nat>, k: nat, i: nat)
    requires bpr >= 4 * width && bpr > 0 && |d| == bpr * height
    requires |order| == 4 && forall c :: 0 <= c < 4 ==> order[c] < 4
    requires i < k <= |d|
    ensures PermutedPrefix(d, width, height, bpr, order, k)[i] == PermutedByte(d, width, height, bpr, order, i)
  {
    if i < k - 1 {
      PermutedPrefixAt(d, width, height, bpr, order, k - 1, i);
    }
  }

  /** A pixel of the pixel area lies inside the bitmap. */
  lemma PixelInRow(i: nat, width: nat, height: nat, bpr: nat)
    requires bpr >= 4 * width && bpr > 0 && i < bpr * height
    requires InPixelArea(i, width, bpr)
    ensures i - i % bpr % 4 + 3 < bpr * height
  {
    DivModDef(i, bpr);
    DivNonNeg(i, bpr);
    PixelInRowAt(i, width, height, bpr, i / bpr, i % bpr);
  }

  lemma PixelInRowAt(i: nat, width: nat, height: nat, bpr: nat, row: nat, col: nat)
    requires bpr > 0 && i == bpr * row + col && col < 4 * width <= bpr && i < bpr * height
    ensures i - col % 4 + 3 < bpr * height
  {
    RowBelowHeight(i, bpr, height, row, col);
    PixelWithinRow(col, width, bpr);
  }

  /** The last byte of the pixel holding byte col is still in the row. */
  lemma PixelWithinRow(col: nat, width: nat, bpr: nat)
    requires col < 4 * width <= bpr
    ensures col - col % 4 + 3 < bpr
  {
    DivModDef(col, 4);
  }

  /** Byte col of row row lies before the end of that row, which ends inside the bitmap. */
  lemma RowBelowHeight(i: nat, bpr: nat, height: nat, row: nat, col: nat)
    requires bpr > 0 && i == bpr * row + col && col < bpr && i < bpr * height
    ensures row < height && bpr * row + bpr <= bpr * height
  {
    if row >= height {
      MulMonotone(bpr, height, row);
    }
    MulMonotone(bpr, row + 1, height);
    Distrib(bpr, row);
  }

  lemma Distrib(d: int, x: int)
    ensures d * (x + 1) == d * x + d
  {
  }

  /** Byte c of the pixel starting at n + 4k (0 <= k < width) in row n / bpr. */
  lemma PermutedAt(d: seq<bv8>, width: nat, height: nat, bpr: nat, order: seq<nat>,
                   row: nat, k: nat, c: nat)
    requires bpr >= 4 * width && bpr > 0 && |d| == bpr * height
    requires |order| == 4 && forall c :: 0 <= c < 4 ==> order[c] < 4
    requires row < height && k < width && c < 4
    ensures bpr * row + 4 * k + 3 < |d|
    ensures Permuted(d, width, height, bpr, order)[bpr * row + 4 * k + c]
      == d[bpr * row + 4 * k + order[c]]
  {
    var i := bpr * row + 4 * k + c;
    RowEnd(bpr, row, height);
    DivModUnique(i, bpr, row, 4 * k + c);
    DivModUnique(4 * k + c, 4, k, c);
    assert PixelStart(i, bpr) == bpr * row + 4 * k;
    PermutedPrefixAt(d, width, height, bpr, order, |d|, i);
  }

  /** Byte col >= 4 * width of row row is padding and keeps its value. */
  lemma PermutedPadding(d: seq<bv8>, width: nat, height: nat, bpr: nat, order: seq<nat>,
                        row: nat, col: nat)
    requires bpr >= 4 * width && bpr > 0 && |d| == bpr * height
    requires |order| == 4 && forall c :: 0 <= c < 4 ==> order[c] < 4
    requires row < height && 4 * width <= col < bpr
    ensures bpr * row + col < |d|
    ensures Permuted(d, width, height, bpr, order)[bpr * row + col] == d[bpr * row + col]
  {
    RowEnd(bpr, row, height);
    DivModUnique(bpr * row + col, bpr, row, col);
    PermutedPrefixAt(d, width, height, bpr, order, |d|, bpr * row + col);
  }

  /** The four bytes of the pixel starting at bpr * row + 4k after the permutation. */
  lemma PermutedPixel(d: seq<bv8>, width: nat, height: nat, bpr: nat, order: seq<nat>,
                      row: nat, k: nat)
    requires bpr >= 4 * width && bpr > 0 && |d| == bpr * height
    requires |order| == 4 && forall c :: 0 <= c < 4 ==> order[c] < 4
    requires row < height && k < width
    ensures var m, p := bpr * row + 4 * k, Permuted(d, width, height, bpr, order);
      && m + 3 < |d|
      && p[m] == d[m + order[0]] && p[m + 1] == d[m + order[1]]
      && p[m + 2] == d[m + order[2]] && p[m + 3] == d[m + order[3]]
  {
    PermutedAt(d, width, height, bpr, order, row, k, 0);
    PermutedAt(d, width, height, bpr, order, row, k, 1);
    PermutedAt(d, width, height, bpr, order, row, k, 2);
    PermutedAt(d, width, height, bpr, order, row, k, 3);
  }

  /** A BGRA (format 0) or ABGR (format 1) pixel comes out as R, G, B, A. */
  lemma PermutedPixelIsRgba(d: seq<bv8>, width: nat, height: nat, bpr: nat, fmt: nat,
                            row: nat, k: nat, r: bv8, g: bv8, b: bv8, a: bv8)
    requires fmt == 0 || fmt == 1
    requires bpr >= 4 * width && bpr > 0 && |d| == bpr * height
    requires row < height && k < width
    requires var m := bpr * row + 4 * k;
      && m + 3 < |d|
      && (fmt == 0 ==> d[m] == b && d[m + 1] == g && d[m + 2] == r && d[m + 3] == a)
      && (fmt == 1 ==> d[m] == a && d[m + 1] == b && d[m + 2] == g && d[m + 3] == r)
    ensures var m, p := bpr * row + 4 * k, Permuted(d, width, height, bpr, PixelOrder(fmt));
      p[m] == r && p[m + 1] == g && p[m + 2] == b && p[m + 3] == a
  {
    PermutedPixel(d, width, height, bpr, PixelOrder(fmt), row, k);
  }

  /**
   * The nested loops of XGetImage: every pixel of every row rewritten in
   * place to R, G, B, A.
   */
  method PermuteToRgba(bitmap: array<bv8>, width: nat, height: nat, bpr: nat, order: seq<nat>)
    requires bpr >= 4 * width && bpr > 0 && bitmap.Length == bpr * height
    requires |order| == 4 && forall c :: 0 <= c < 4 ==> order[c] < 4
    modifies bitmap
    ensures bitmap[..] == Permuted(old(bitmap[..]), width, height, bpr, order)
  {
    ghost var d := bitmap[..];
    ghost var p := Permuted(d, width, height, bpr, order);
    var row, n := 0, 0;
    while row < height
      invariant row <= height && n == bpr * row
      invariant forall i :: 0 <= i < n ==> bitmap[i] == p[i]
      invariant forall i :: n <= i < bitmap.Length ==> bitmap[i] == d[i]
    {
      RowEnd(bpr, row, height);
      Distrib(bpr, row);
      PermuteRow(bitmap, width, height, bpr, order, row, n, d);
      row, n := row + 1, n + bpr;
    }
    assert n == bitmap.Length;
    assert bitmap[..] == p by {
      forall i | 0 <= i < bitmap.Length
        ensures bitmap[..][i] == p[i]
      {
      }
    }
  }

  /** The inner loop of XGetImage: the pixels of one row; its padding is left alone. */
  method PermuteRow(bitmap: array<bv8>, width: nat, height: nat, bpr: nat, order: seq<nat>,
                    row: nat, n: nat, ghost d: seq<bv8>)
    requires bpr >= 4 * width && bpr > 0 && bitmap.Length == bpr * height == |d|
    requires |order| == 4 && forall c :: 0 <= c < 4 ==> order[c] < 4
    requires row < height && n == bpr * row && n + bpr <= |d|
    requires forall i :: 0 <= i < n ==> bitmap[i] == Permuted(d, width, height, bpr, order)[i]
    requires forall i :: n <= i < bitmap.Length ==> bitmap[i] == d[i]
    modifies bitmap
    ensures forall i :: 0 <= i < n + bpr ==> bitmap[i] == Permuted(d, width, height, bpr, order)[i]
    ensures forall i :: n + bpr <= i < bitmap.Length ==> bitmap[i] == d[i]
  {
    ghost var p := Permuted(d, width, height, bpr, order);
    var m, k := n, 0;
    while m < n + 4 * width
      invariant k <= width && m == n + 4 * k
      invariant forall i :: 0 <= i < m ==> bitmap[i] == p[i]
      invariant forall i :: m <= i < bitmap.Length ==> bitmap[i] == d[i]
    {
      PermuteRowPixel(bitmap, width, height, bpr, order, row, k, m, d);
      m, k := m + 4, k + 1;
    }
    RowPaddingPermuted(d, width, height, bpr, order, row);
  }

  /** The row's padding, bytes 4 * width to bpr, is the same before and after. */
  lemma RowPaddingPermuted(d: seq<bv8>, width: nat, height: nat, bpr: nat, order: seq<nat>, row: nat)
    requires bpr >= 4 * width && bpr > 0 && |d| == bpr * height
    requires |order| == 4 && forall c :: 0 <= c < 4 ==> order[c] < 4
    requires row < height
    ensures bpr * row + bpr <= |d|
    ensures forall i :: bpr * row + 4 * width <= i < bpr * row + bpr ==>
      Permuted(d, width, height, bpr, order)[i] == d[i]
  {
    RowEnd(bpr, row, height);
    var n := bpr * row;
    forall i | n + 4 * width <= i < n + bpr
      ensures Permuted(d, width, height, bpr, order)[i] == d[i]
    {
      PermutedPadding(d, width, height, bpr, order, row, i - n);
    }
  }

  /** One pass of the inner loop, with what it establishes about the row. */
  method PermuteRowPixel(bitmap: array<bv8>, width: nat, height: nat, bpr: nat, order: seq<nat>,
                         row: nat, k: nat, m: nat, ghost d: seq<bv8>)
    requires bpr >= 4 * width && bpr > 0 && bitmap.Length == bpr * height == |d|
    requires |order| == 4 && forall c :: 0 <= c < 4 ==> order[c] < 4
    requires row < height && k < width && m == bpr * row + 4 * k && m + 4 <= |d|
    requires forall i :: 0 <= i < m ==> bitmap[i] == Permuted(d, width, height, bpr, order)[i]
    requires forall i :: m <= i < bitmap.Length ==> bitmap[i] == d[i]
    modifies bitmap
    ensures forall i :: 0 <= i < m + 4 ==> bitmap[i] == Permuted(d, width, height, bpr, order)[i]
    ensures forall i :: m + 4 <= i < bitmap.Length ==> bitmap[i] == d[i]
  {
    ghost var p := Permuted(d, width, height, bpr, order);
    PermutedPixel(d, width, height, bpr, order, row, k);
    PermutePixel(bitmap, m, order);
    assert bitmap[m] == p[m] && bitmap[m + 1] == p[m + 1];
    assert bitmap[m + 2] == p[m + 2] && bitmap[m + 3] == p[m + 3];
    forall i | 0 <= i < m + 4
      ensures bitmap[i] == p[i]
    {
      if i >= m {
        assert i == m || i == m + 1 || i == m + 2 || i == m + 3;
      }
    }
  }

  /** One pass of the inner loop: the pixel at m rewritten from its own bytes. */
  method PermutePixel(bitmap: array<bv8>, m: nat, order: seq<nat>)
    requires m + 3 < bitmap.Length
    requires |order| == 4 && forall c :: 0 <= c < 4 ==> order[c] < 4
    modifies bitmap
    ensures forall i :: 0 <= i < bitmap.Length && !(m <= i < m + 4) ==> bitmap[i] == old(bitmap[i])
    ensures bitmap[m] == old(bitmap[m + order[0]]) && bitmap[m + 1] == old(bitmap[m + order[1]])
    ensures bitmap[m + 2] == old(bitmap[m + order[2]]) && bitmap[m + 3] == old(bitmap[m + order[3]])
  {
    var r, g, b, a := bitmap[m + order[0]], bitmap[m + order[1]], bitmap[m + order[2]], bitmap[m + order[3]];
    bitmap[m] := r;
    bitmap[m + 1] := g;
    bitmap[m + 2] := b;
    bitmap[m + 3] := a;
  }

  lemma RowEnd(bpr: nat, row: nat, height: nat)
    requires row < height
    ensures bpr * row + bpr <= bpr * height
  {
    MulMonotone(bpr, row + 1, height);
    Distrib(bpr, row);
  }

  // ---------------------------------------------------------------------
  // XGetImage: the guards around the permutation.

  /**
   * What the bitmap representation of a captured rectangle reports: its
   * bitmap format, samples per pixel, whether it is planar, bytes per row
   * and the bytes of its single plane.
   */
  datatype Capture = Capture(bitmapFormat: nat, samplesPerPixel: nat, isPlanar: bool,
                             bytesPerRow: nat, bytes: seq<bv8>)

  /**
   * The format check of XGetImage as written: bytes per row and plane size
   * are truncated to unsigned int, and 4 * width and bytes_per_row * height
   * are computed modulo 2^32.
   */
  predicate RecognizedAsWritten(c: Capture, width: nat, height: nat)
  {
    var bpr, size := c.bytesPerRow % U32, |c.bytes| % U32;
    && (c.bitmapFormat == 0 || c.bitmapFormat == 1)
    && c.samplesPerPixel == 4
    && !c.isPlanar
    && bpr >= (4 * width) % U32
    && size == (bpr * height) % U32
  }

  /**
   * A 16384 x 65537 capture with 65536 bytes per row has a plane of
   * 2^32 + 2^16 bytes; the truncated size 65536 equals the wrapped product,
   * so the check passes while the loop visits 65537 rows of a 65536-byte copy.
   */
  lemma RecognizedAsWrittenAdmitsOverrun()
    ensures var c := Capture(0, 4, false, 65536, seq(65536 * 65537, i => 0));
      && RecognizedAsWritten(c, 16384, 65537)
      && |c.bytes| % U32 < c.bytesPerRow * 65537
  {
  }

  /** The format check with the sizes compared exactly. */
  predicate Recognized(c: Capture, width: nat, height: nat)
  {
    && (c.bitmapFormat == 0 || c.bitmapFormat == 1)
    && c.samplesPerPixel == 4
    && !c.isPlanar
    && c.bytesPerRow >= 4 * width
    && |c.bytes| == c.bytesPerRow * height
    && |c.bytes| < U32
  }

  /** The exact check admits nothing the written one rejects. */
  lemma RecognizedIsStricter(c: Capture, width: nat, height: nat)
    requires width < U32 / 4 && height > 0
    ensures Recognized(c, width, height) ==> RecognizedAsWritten(c, width, height)
  {
    if Recognized(c, width, height) {
      MulMonotone(c.bytesPerRow, 1, height);
    }
  }

  /** memcpy of the plane into a fresh buffer. */
  method CopyPlane(bytes: seq<bv8>) returns (bitmap: array<bv8>)
    ensures fresh(bitmap) && bitmap[..] == bytes
  {
    bitmap := new bv8[|bytes|];
    var i := 0;
    while i < |bytes|
      invariant i <= |bytes|
      invariant bitmap[..i] == bytes[..i]
    {
      bitmap[i] := bytes[i];
      i := i + 1;
    }
  }

  /** A ZPixmap request of a non-empty rectangle whose capture succeeded and is recognised. */
  predicate GetImageSucceeds(format: int, width: nat, height: nat, capture: Option<Capture>)
  {
    format == ZPixmap && width > 0 && height > 0 && capture.Some?
    && Recognized(capture.value, width, height)
  }

  /**
   * XGetImage: only ZPixmap requests of a non-empty rectangle whose capture
   * succeeds and is recognised produce an image; its buffer holds the
   * capture permuted to R, G, B, A, wrapped by XCreateImage with depth 32,
   * offset 0, the default pad and the capture's bytes per row.
   */
  method GetImage(format: int, width: nat, height: nat, capture: Option<Capture>)
    returns (image: XImage?)
    requires width < U32 && height < U32
    ensures !GetImageSucceeds(format, width, height, capture) ==> image == null
    ensures GetImageSucceeds(format, width, height, capture) ==>
      var c := capture.value;
      && image != null && fresh(image) && image.data != null && fresh(image.data)
      && image.layout == CreateLayout(32, format, 0, width, height, 0, c.bytesPerRow)
      && image.data[..] == Permuted(c.bytes, width, height, c.bytesPerRow, PixelOrder(c.bitmapFormat))
  {
    if format != ZPixmap || width == 0 || height == 0 || capture.None? {
      return null;
    }
    var c := capture.value;
    if !Recognized(c, width, height) {
      return null;
    }
    var bitmap := CopyPlane(c.bytes);
    PermuteToRgba(bitmap, width, height, c.bytesPerRow, PixelOrder(c.bitmapFormat));
    image := new XImage(32, format, 0, bitmap, width, height, 0, c.bytesPerRow);
  }

  /** The image XGetImage returns stores the channels of a BGRA or ABGR capture as R, G, B, A. */
  lemma GetImagePixelsAreRgba(c: Capture, width: nat, height: nat, row: nat, k: nat)
    requires Recognized(c, width, height) && row < height && k < width
    ensures var m, p := c.bytesPerRow * row + 4 * k,
                        Permuted(c.bytes, width, height, c.bytesPerRow, PixelOrder(c.bitmapFormat));
      && m + 3 < |c.bytes|
      && (c.bitmapFormat == 0 ==>
            p[m] == c.bytes[m + 2] && p[m + 1] == c.bytes[m + 1]
            && p[m + 2] == c.bytes[m] && p[m + 3] == c.bytes[m + 3])
      && (c.bitmapFormat == 1 ==>
            p[m] == c.bytes[m + 3] && p[m + 1] == c.bytes[m + 2]
            && p[m + 2] == c.bytes[m + 1] && p[m + 3] == c.bytes[m])
  {
    PermutedPixel(c.bytes, width, height, c.bytesPerRow, PixelOrder(c.bitmapFormat), row, k);
  }

  // ---------------------------------------------------------------------
  // XCopyArea and XCopyPlane: the guards before any drawing.

  datatype CopyOutcome = BadDrawable | Panic | Proceed

  /** XCopyArea refuses an empty rectangle with BadDrawable. */
  function CopyAreaGuard(width: nat, height: nat): (r: CopyOutcome)
    ensures r != Panic
  {
    if width == 0 || height == 0 then BadDrawable else Proceed
  }

  /** XCopyPlane refuses an empty rectangle first, then panics on any plane but 1. */
  function CopyPlaneGuard(width: nat, height: nat, plane: nat): (r: CopyOutcome)
  {
    if width == 0 || height == 0 then BadDrawable
    else if plane != 1 then Panic
    else Proceed
  }

  /**
   * Both copies refuse exactly the empty rectangles; on plane 1 XCopyPlane
   * proceeds exactly when XCopyArea does, and it panics only on a non-empty
   * rectangle with another plane.
   */
  lemma CopyGuards(width: nat, height: nat, plane: nat)
    ensures (CopyAreaGuard(width, height) == BadDrawable) <==> (width == 0 || height == 0)
    ensures (CopyPlaneGuard(width, height, plane) == BadDrawable) <==> (width == 0 || height == 0)
    ensures plane == 1 ==> CopyPlaneGuard(width, height, plane) == CopyAreaGuard(width, height)
    ensures (CopyPlaneGuard(width, height, plane) == Panic) <==> (width > 0 && height > 0 && plane != 1)
  {
  }
}
