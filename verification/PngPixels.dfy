/** PNG samples: how pixels lie in a row, and what colour and alpha a pixel becomes. */
module PngPixels {
  import opened Bytes
  import opened ColourFormat

  /** color_type and bit_depth. */
  datatype Format = Format(colour: nat, depth: nat)

  /** The samples of one pixel. */
  type Pixel = seq<byte>

  /** PLTE as its colour triples, and tRNS. */
  datatype Tables = Tables(palette: seq<byte>, trns: seq<byte>)

  function Channels(colour: nat): nat
  {
    if colour == 0 || colour == 3 then 1
    else if colour == 2 then 3
    else if colour == 4 then 2
    else if colour == 6 then 4
    else 0
  }

  /** The formats that survive the IHDR checks. */
  predicate Accepted(f: Format)
  {
    || (f.colour in [0, 3] && f.depth in [1, 2, 4, 8])
    || (f.colour in [2, 4, 6] && f.depth == 8)
  }

  function FilterBpp(f: Format): nat
  {
    var bits := Channels(f.colour) * f.depth;
    if bits <= 8 then 1 else (bits + 7) / 8
  }

  function RowBytes(width: nat, f: Format): nat
  {
    (width * Channels(f.colour) * f.depth + 7) / 8
  }

  function Pow2(n: nat): nat
  {
    match n
    case 0 => 1
    case 1 => 2
    case 2 => 4
    case 3 => 8
    case 4 => 16
    case 5 => 32
    case 6 => 64
    case 7 => 128
    case _ => 256
  }

  lemma BitAligned(x: nat, depth: nat)
    requires depth in [1, 2, 4]
    ensures 0 <= x * depth % 8 <= 8 - depth
    ensures x * depth / 8 == x / (8 / depth) && x * depth % 8 == x % (8 / depth) * depth
    ensures depth == 4 ==> x * depth / 8 == x / 2 && x * depth % 8 == 4 * (x % 2)
    ensures depth == 2 ==> x * depth / 8 == x / 4 && x * depth % 8 == 2 * (x % 4)
    ensures depth == 1 ==> x * depth / 8 == x / 8 && x * depth % 8 == x % 8
  {
    if depth == 4 {
      assert x * 4 / 8 == x / 2;
    } else if depth == 2 {
      assert x * 2 / 8 == x / 4;
    } else {
      assert x * 1 == x;
    }
  }

  /** packed_sample: shift the octet right, mask the low bits. */
  function PackedSample(row: seq<byte>, x: nat, depth: nat): (s: byte)
    requires depth in [1, 2, 4, 8] && x * depth / 8 < |row|
    ensures s < Pow2(depth)
  {
    if depth == 8 then row[x]
    else
      var bit := x * depth;
      BitAligned(x, depth);
      row[bit / 8] / Pow2(8 - depth - bit % 8) % Pow2(depth)
  }

  function ScaleSample(sample: byte, depth: nat): byte
    requires depth in [1, 2, 4, 8] && sample < Pow2(depth)
  {
    if depth == 8 then sample
    else (sample * 255 + (Pow2(depth) - 1) / 2) / (Pow2(depth) - 1)
  }

  /** The octet nearest to the sample's share of full intensity; none and all stay none and all. */
  lemma ScaledSampleIsNearest(sample: byte, depth: nat)
    requires depth in [1, 2, 4, 8] && sample < Pow2(depth)
    ensures var s, full: int := ScaleSample(sample, depth), Pow2(depth) - 1;
            && -full <= 2 * (s as int * full - sample as int * 255) <= full
            && (sample == 0 ==> s == 0) && (sample as int == full ==> s == 255)
  {
    if depth == 1 {
      assert Pow2(depth) - 1 == 1;
    } else if depth == 2 {
      assert Pow2(depth) - 1 == 3;
    } else if depth == 4 {
      assert Pow2(depth) - 1 == 15;
    } else {
      assert Pow2(depth) - 1 == 255;
    }
  }

  /** One cell of the decoded image: its RGB565 colour and its alpha. */
  datatype Dot = Dot(rgb: u16, alpha: byte)

  // ----------------------------------------------------- pixels in a row

  predicate IsPixel(p: Pixel, f: Format)
  {
    |p| == Channels(f.colour) && forall k :: 0 <= k < |p| ==> p[k] < Pow2(f.depth)
  }

  predicate IsRow(row: seq<Pixel>, f: Format)
  {
    forall x :: 0 <= x < |row| ==> IsPixel(row[x], f)
  }

  lemma Division(width: nat, n: nat, k: nat)
    requires n > 0 && k < width * n
    ensures 0 <= k / n < width && 0 <= k % n < n && k == k / n * n + k % n
  {
    var q := k / n;
    assert q >= width ==> q * n >= width * n;
  }

  /** Octet k of a row whose samples are octets. */
  function OctetOfRow(row: seq<Pixel>, f: Format, k: nat): byte
    requires Accepted(f) && IsRow(row, f) && k < |row| * Channels(f.colour)
  {
    var n := Channels(f.colour);
    Division(|row|, n, k);
    assert IsPixel(row[k / n], f);
    row[k / n][k % n]
  }

  /** The single sample of pixel x, or zero behind the end of the row. */
  function Sample(row: seq<Pixel>, f: Format, x: nat): (s: byte)
    requires Accepted(f) && Channels(f.colour) == 1 && IsRow(row, f)
    ensures s < Pow2(f.depth)
  {
    if x < |row| then assert IsPixel(row[x], f); row[x][0] else 0
  }

  /** Octet k of a row of one-, two- or four-bit samples, the leftmost sample in the high bits. */
  function PackOctet(row: seq<Pixel>, f: Format, k: nat): byte
    requires Accepted(f) && f.depth != 8 && IsRow(row, f)
  {
    if f.depth == 4 then
      Sample(row, f, 2 * k) * 16 + Sample(row, f, 2 * k + 1)
    else if f.depth == 2 then
      Sample(row, f, 4 * k) * 64 + Sample(row, f, 4 * k + 1) * 16 +
      Sample(row, f, 4 * k + 2) * 4 + Sample(row, f, 4 * k + 3)
    else
      Sample(row, f, 8 * k) * 128 + Sample(row, f, 8 * k + 1) * 64 +
      Sample(row, f, 8 * k + 2) * 32 + Sample(row, f, 8 * k + 3) * 16 +
      Sample(row, f, 8 * k + 4) * 8 + Sample(row, f, 8 * k + 5) * 4 +
      Sample(row, f, 8 * k + 6) * 2 + Sample(row, f, 8 * k + 7)
  }

  /** The octets that carry these pixels (PNG specification, section 7.2). */
  function PackRow(row: seq<Pixel>, f: Format): (s: seq<byte>)
    requires Accepted(f) && IsRow(row, f)
    ensures |s| == RowBytes(|row|, f)
  {
    seq<byte>(RowBytes(|row|, f), k requires 0 <= k < RowBytes(|row|, f) =>
      if f.depth == 8 then OctetOfRow(row, f, k) else PackOctet(row, f, k))
  }

  /** The pixel png_store_pixel takes from a row. */
  function PixelAt(row: seq<byte>, x: nat, f: Format): (p: Pixel)
    requires Accepted(f) && RowBytes(x + 1, f) <= |row|
    ensures IsPixel(p, f)
  {
    var n := Channels(f.colour);
    PixelInside(x, f);
    if n == 1 then [PackedSample(row, x, f.depth)]
    else row[x * n..x * n + n]
  }

  lemma PixelInside(x: nat, f: Format)
    requires Accepted(f)
    ensures x * f.depth / 8 < RowBytes(x + 1, f) || Channels(f.colour) != 1
    ensures f.depth == 8 ==> RowBytes(x + 1, f) == x * Channels(f.colour) + Channels(f.colour)
  {
    var n := Channels(f.colour);
    assert (x + 1) * n == x * n + n;
    if f.depth != 8 {
      BitAligned(x, f.depth);
      assert (x + 1) * n * f.depth == x * f.depth + f.depth;
    }
  }

  lemma FourBitDigits(a: nat, b: nat)
    requires a < 16 && b < 16
    ensures (a * 16 + b) / 16 % 16 == a && (a * 16 + b) / 1 % 16 == b
  {}

  lemma TwoBitDigits(a: nat, b: nat, c: nat, d: nat)
    requires a < 4 && b < 4 && c < 4 && d < 4
    ensures var v := a * 64 + b * 16 + c * 4 + d;
            v / 64 % 4 == a && v / 16 % 4 == b && v / 4 % 4 == c && v / 1 % 4 == d
  {
    var v := a * 64 + b * 16 + c * 4 + d;
    assert v / 4 == a * 16 + b * 4 + c;
    assert v / 16 == a * 4 + b;
    assert v / 64 == a;
  }

  lemma OneBitDigits(a: nat, b: nat, c: nat, d: nat, e: nat, f: nat, g: nat, h: nat)
    requires a < 2 && b < 2 && c < 2 && d < 2 && e < 2 && f < 2 && g < 2 && h < 2
    ensures var v := a * 128 + b * 64 + c * 32 + d * 16 + e * 8 + f * 4 + g * 2 + h;
            && v / 128 % 2 == a && v / 64 % 2 == b && v / 32 % 2 == c && v / 16 % 2 == d
            && v / 8 % 2 == e && v / 4 % 2 == f && v / 2 % 2 == g && v / 1 % 2 == h
  {
    var v := a * 128 + b * 64 + c * 32 + d * 16 + e * 8 + f * 4 + g * 2 + h;
    assert v / 2 == a * 64 + b * 32 + c * 16 + d * 8 + e * 4 + f * 2 + g;
    assert v / 4 == a * 32 + b * 16 + c * 8 + d * 4 + e * 2 + f;
    assert v / 8 == a * 16 + b * 8 + c * 4 + d * 2 + e;
    assert v / 16 == a * 8 + b * 4 + c * 2 + d;
    assert v / 32 == a * 4 + b * 2 + c;
    assert v / 64 == a * 2 + b;
    assert v / 128 == a;
  }

  lemma FourBitOctet(row: seq<Pixel>, f: Format, k: nat, j: nat)
    requires Accepted(f) && f.depth == 4 && IsRow(row, f) && j < 2
    ensures PackOctet(row, f, k) / Pow2(4 - 4 * j) % 16 == Sample(row, f, 2 * k + j)
  {
    FourBitDigits(Sample(row, f, 2 * k), Sample(row, f, 2 * k + 1));
  }

  lemma TwoBitOctet(row: seq<Pixel>, f: Format, k: nat, j: nat)
    requires Accepted(f) && f.depth == 2 && IsRow(row, f) && j < 4
    ensures PackOctet(row, f, k) / Pow2(6 - 2 * j) % 4 == Sample(row, f, 4 * k + j)
  {
    TwoBitDigits(Sample(row, f, 4 * k), Sample(row, f, 4 * k + 1), Sample(row, f, 4 * k + 2),
                 Sample(row, f, 4 * k + 3));
  }

  lemma OneBitOctet(row: seq<Pixel>, f: Format, k: nat, j: nat)
    requires Accepted(f) && f.depth == 1 && IsRow(row, f) && j < 8
    ensures PackOctet(row, f, k) / Pow2(7 - j) % 2 == Sample(row, f, 8 * k + j)
  {
    OneBit(Sample(row, f, 8 * k), Sample(row, f, 8 * k + 1), Sample(row, f, 8 * k + 2),
           Sample(row, f, 8 * k + 3), Sample(row, f, 8 * k + 4), Sample(row, f, 8 * k + 5),
           Sample(row, f, 8 * k + 6), Sample(row, f, 8 * k + 7), j);
    hide Pow2;
  }

  lemma OneBit(a: nat, b: nat, c: nat, d: nat, e: nat, f: nat, g: nat, h: nat, j: nat)
    requires a < 2 && b < 2 && c < 2 && d < 2 && e < 2 && f < 2 && g < 2 && h < 2 && j < 8
    ensures var v := a * 128 + b * 64 + c * 32 + d * 16 + e * 8 + f * 4 + g * 2 + h;
            v / Pow2(7 - j) % 2 ==
            if j == 0 then a else if j == 1 then b else if j == 2 then c else if j == 3 then d
            else if j == 4 then e else if j == 5 then f else if j == 6 then g else h
  {
    OneBitDigits(a, b, c, d, e, f, g, h);
    var v := a * 128 + b * 64 + c * 32 + d * 16 + e * 8 + f * 4 + g * 2 + h;
    ghost var s := Pow2(7 - j);
    match j
    case 0 => assert s == 128;
    case 1 => assert s == 64;
    case 2 => assert s == 32;
    case 3 => assert s == 16;
    case 4 => assert s == 8;
    case 5 => assert s == 4;
    case 6 => assert s == 2;
    case _ => assert s == 1;
  }

  /** Shifting and masking takes the sample out of its octet. */
  lemma PackedOctetHoldsSample(row: seq<Pixel>, f: Format, octet: byte, x: nat)
    requires Accepted(f) && f.depth != 8 && x < |row| && IsRow(row, f)
    requires octet == PackOctet(row, f, x * f.depth / 8)
    ensures x * f.depth % 8 <= 8 - f.depth
    ensures octet / Pow2(8 - f.depth - x * f.depth % 8) % Pow2(f.depth) == Sample(row, f, x)
  {
    hide Sample;
    hide PackOctet;
    assert Pow2(1) == 2 && Pow2(2) == 4 && Pow2(4) == 16;
    hide Pow2;
    BitAligned(x, f.depth);
    if f.depth == 4 {
      FourBitOctet(row, f, x / 2, x % 2);
    } else if f.depth == 2 {
      TwoBitOctet(row, f, x / 4, x % 4);
    } else {
      OneBitOctet(row, f, x / 8, x % 8);
    }
  }

  lemma RowBytesGrow(a: nat, b: nat, f: Format)
    requires a <= b
    ensures RowBytes(a, f) <= RowBytes(b, f)
  {
    var n := Channels(f.colour);
    assert a * n <= b * n;
    assert a * n * f.depth <= b * n * f.depth;
  }

  lemma OctetsOfPackedRow(row: seq<Pixel>, f: Format, x: nat, j: nat)
    requires Accepted(f) && f.depth == 8 && x < |row| && IsRow(row, f) && j < Channels(f.colour)
    ensures var n := Channels(f.colour);
            x * n + j < |PackRow(row, f)| && |row[x]| == n && PackRow(row, f)[x * n + j] == row[x][j]
  {
    var n := Channels(f.colour);
    RowBytesGrow(x + 1, |row|, f);
    PixelInside(x, f);
    assert IsPixel(row[x], f);
    assert (x * n + j) / n == x && (x * n + j) % n == j;
  }

  lemma SampleOfPackedRow(row: seq<Pixel>, f: Format, x: nat)
    requires Accepted(f) && f.depth != 8 && x < |row| && IsRow(row, f)
    ensures x * f.depth / 8 < |PackRow(row, f)| && |row[x]| == 1
    ensures PackedSample(PackRow(row, f), x, f.depth) == row[x][0]
  {
    RowBytesGrow(x + 1, |row|, f);
    PixelInside(x, f);
    assert IsPixel(row[x], f);
    PackedOctetHoldsSample(row, f, PackOctet(row, f, x * f.depth / 8), x);
  }

  /** Every pixel can be read back from the packed row. */
  lemma PixelOfPackedRow(row: seq<Pixel>, f: Format, x: nat)
    requires Accepted(f) && x < |row| && IsRow(row, f)
    ensures RowBytes(x + 1, f) <= |PackRow(row, f)|
    ensures PixelAt(PackRow(row, f), x, f) == row[x]
  {
    RowBytesGrow(x + 1, |row|, f);
    PixelInside(x, f);
    var n := Channels(f.colour);
    if f.depth != 8 {
      SampleOfPackedRow(row, f, x);
    } else {
      forall j | 0 <= j < n
        ensures PackRow(row, f)[x * n..x * n + n][j] == row[x][j]
      {
        OctetsOfPackedRow(row, f, x, j);
      }
      OctetsOfPackedRow(row, f, x, 0);
      hide PackRow;
      if n == 1 {
        assert PixelAt(PackRow(row, f), x, f)[0] == PackRow(row, f)[x];
      } else {
        assert PixelAt(PackRow(row, f), x, f) == PackRow(row, f)[x * n..x * n + n];
      }
    }
  }

  /** The cell png_store_pixel writes for a pixel. */
  function Colour(p: Pixel, f: Format, t: Tables): Dot
    requires Accepted(f) && IsPixel(p, f)
  {
    if f.colour == 0 then
      var grey := ScaleSample(p[0], f.depth);
      Dot(Rgb565(grey, grey, grey),
          if |t.trns| >= 2 && p[0] as int == t.trns[0] as int * 256 + t.trns[1] as int then 0 else 255)
    else if f.colour == 2 then
      Dot(Rgb565(p[0], p[1], p[2]),
          if |t.trns| >= 6 && p[0] == t.trns[1] && p[1] == t.trns[3] && p[2] == t.trns[5] then 0 else 255)
    else if f.colour == 3 then
      var i: int := p[0];
      if i < |t.palette| / 3 then
        Dot(Rgb565(t.palette[i * 3], t.palette[i * 3 + 1], t.palette[i * 3 + 2]),
            if i < |t.trns| then t.trns[i] else 255)
      else Dot(0, 255)
    else if f.colour == 4 then
      Dot(Rgb565(p[0], p[0], p[0]), p[1])
    else
      Dot(Rgb565(p[0], p[1], p[2]), p[3])
  }
}
