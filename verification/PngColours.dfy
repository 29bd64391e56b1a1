/**
 * The picture a PNG stream shows, whichever of the accepted formats carries it
 * (W3C PNG specification, sections 6.1, 11.2.2 and 11.3.2).
 */
module PngColours {
  import opened Arithmetic
  import opened Bytes
  import opened ColourFormat
  import opened PngDecode
  import opened PngPixels
  import opened PngRoundTrip

  /** A colour of the picture, before any format. */
  datatype Rgba = Rgba(red: byte, green: byte, blue: byte, alpha: byte)

  type Picture = seq<seq<Rgba>>

  // ---------------------------------------------- what a pixel stands for

  predicate IsGrey(c: Rgba)
  {
    c.red == c.green == c.blue
  }

  /** How far apart the grey levels of a depth are. */
  function GreyStep(depth: nat): nat
  {
    if depth == 1 then 255 else if depth == 2 then 85 else if depth == 4 then 17 else 1
  }

  /** The transparent grey level: a 16-bit number, most significant octet first. */
  predicate IsGreyKey(sample: byte, trns: seq<byte>)
  {
    |trns| >= 2 && trns[0] == 0 && trns[1] == sample
  }

  /** The transparent colour: three 16-bit numbers whose high octets nobody reads. */
  predicate IsColourKey(c: Rgba, trns: seq<byte>)
  {
    |trns| >= 6 && [trns[1], trns[3], trns[5]] == [c.red, c.green, c.blue]
  }

  /** Entry i of the palette; a missing entry is opaque black, and a missing alpha is full. */
  predicate IsEntry(i: nat, c: Rgba, t: Tables)
  {
    if 3 * i + 3 <= |t.palette| then
      t.palette[3 * i..3 * i + 3] == [c.red, c.green, c.blue] && c.alpha == if i < |t.trns| then t.trns[i] else 255
    else c == Rgba(0, 0, 0, 255)
  }

  /** An encoder of this format, with these tables, writes the colour as this pixel. */
  predicate Writes(p: Pixel, c: Rgba, f: Format, t: Tables)
    requires Accepted(f) && IsPixel(p, f)
  {
    match f.colour
    case 0 => IsGrey(c) && p[0] as int * GreyStep(f.depth) == c.red as int &&
              c.alpha == if IsGreyKey(p[0], t.trns) then 0 else 255
    case 2 => p == [c.red, c.green, c.blue] && c.alpha == if IsColourKey(c, t.trns) then 0 else 255
    case 3 => IsEntry(p[0], c, t)
    case 4 => IsGrey(c) && p == [c.red, c.alpha]
    case _ => p == [c.red, c.green, c.blue, c.alpha]
  }

  /** The cell holds the colour, as exactly as five, six and five bits can. */
  predicate Shows(d: Dot, c: Rgba)
  {
    && d.rgb as int / 2048 == c.red as int / 8
    && d.rgb as int / 32 % 64 == c.green as int / 4
    && d.rgb as int % 32 == c.blue as int / 8
    && d.alpha == c.alpha
  }

  /** A colour leaves a cell no choice. */
  lemma ShownAlike(d: Dot, e: Dot, c: Rgba)
    requires Shows(d, c) && Shows(e, c)
    ensures d == e
  {
    FieldsJoin(d.rgb as int);
    FieldsJoin(e.rgb as int);
  }

  lemma FieldsJoin(v: nat)
    ensures v == v / 2048 * 2048 + v / 32 % 64 * 32 + v % 32
  {
    assert v / 2048 == v / 32 / 64;
  }

  // ------------------------------------------------- one pixel, one colour

  lemma GreyLevel(sample: byte, depth: nat)
    requires depth in [1, 2, 4, 8] && sample < Pow2(depth)
    ensures ScaleSample(sample, depth) as int == sample as int * GreyStep(depth)
  {
    if depth == 1 {
      assert sample as int * 255 / 1 == sample as int * 255;
    } else if depth == 2 {
      assert (sample as int * 255 + 1) / 3 == sample as int * 85;
    } else if depth == 4 {
      assert (sample as int * 255 + 7) / 15 == sample as int * 17;
    }
  }

  lemma GreyShows(p: Pixel, c: Rgba, f: Format, t: Tables)
    requires Accepted(f) && f.colour == 0 && IsPixel(p, f) && Writes(p, c, f, t)
    ensures Shows(Colour(p, f, t), c)
  {
    GreyLevel(p[0], f.depth);
    hide ScaleSample, GreyStep, Rgb565;
    KeyIs(p[0], t.trns);
  }

  lemma KeyIs(sample: byte, trns: seq<byte>)
    ensures IsGreyKey(sample, trns) <==>
            |trns| >= 2 && sample as int == trns[0] as int * 256 + trns[1] as int
  {}

  lemma EntryIs(i: nat, c: Rgba, t: Tables)
    requires IsEntry(i, c, t)
    ensures if i < |t.palette| / 3
            then t.palette[i * 3] == c.red && t.palette[i * 3 + 1] == c.green && t.palette[i * 3 + 2] == c.blue &&
                 c.alpha == if i < |t.trns| then t.trns[i] else 255
            else c == Rgba(0, 0, 0, 255)
  {
    if 3 * i + 3 <= |t.palette| {
      var rgb := t.palette[3 * i..3 * i + 3];
      assert rgb[0] == c.red && rgb[1] == c.green && rgb[2] == c.blue;
    }
  }

  lemma PixelShows(p: Pixel, c: Rgba, f: Format, t: Tables)
    requires Accepted(f) && IsPixel(p, f) && Writes(p, c, f, t)
    ensures Shows(Colour(p, f, t), c)
  {
    if f.colour == 0 {
      GreyShows(p, c, f, t);
    } else if f.colour == 3 {
      EntryIs(p[0], c, t);
      hide Rgb565, IsEntry;
    } else {
      hide Rgb565;
    }
  }

  /** Every pixel stands for a colour. */
  lemma PixelHasColour(p: Pixel, f: Format, t: Tables) returns (c: Rgba)
    requires Accepted(f) && IsPixel(p, f)
    ensures Writes(p, c, f, t)
  {
    match f.colour
    case 0 =>
      GreyLevel(p[0], f.depth);
      var level := ScaleSample(p[0], f.depth);
      c := Rgba(level, level, level, if IsGreyKey(p[0], t.trns) then 0 else 255);
    case 2 =>
      c := Rgba(p[0], p[1], p[2], 255);
      if IsColourKey(c, t.trns) { c := Rgba(p[0], p[1], p[2], 0); }
    case 3 =>
      var i: nat := p[0];
      c := if 3 * i + 3 <= |t.palette| then
        Rgba(t.palette[3 * i], t.palette[3 * i + 1], t.palette[3 * i + 2], if i < |t.trns| then t.trns[i] else 255)
        else Rgba(0, 0, 0, 255);
    case 4 => c := Rgba(p[0], p[0], p[0], p[1]);
    case _ => c := Rgba(p[0], p[1], p[2], p[3]);
  }

  // --------------------------------------------- which colours a format holds

  /** The colours that a format with these tables can write. */
  ghost predicate Holds(f: Format, t: Tables, c: Rgba)
    requires Accepted(f)
  {
    match f.colour
    case 0 => IsGrey(c) && c.red as int % GreyStep(f.depth) == 0 &&
              c.alpha == if IsGreyKey(c.red as int / GreyStep(f.depth), t.trns) then 0 else 255
    case 2 => c.alpha == if IsColourKey(c, t.trns) then 0 else 255
    case 3 => exists i: nat :: i < Pow2(f.depth) && IsEntry(i, c, t)
    case 4 => IsGrey(c)
    case _ => true
  }

  /** A colour that the format holds has a pixel. */
  lemma PixelForColour(c: Rgba, f: Format, t: Tables) returns (p: Pixel)
    requires Accepted(f) && Holds(f, t, c)
    ensures IsPixel(p, f) && Writes(p, c, f, t)
  {
    match f.colour
    case 0 =>
      GreyLevels(c.red, f.depth);
      p := [c.red as int / GreyStep(f.depth)];
    case 2 => p := [c.red, c.green, c.blue];
    case 3 =>
      var i: nat :| i < Pow2(f.depth) && IsEntry(i, c, t);
      DepthFits(f.depth);
      p := [i];
    case 4 => p := [c.red, c.alpha];
    case _ => p := [c.red, c.green, c.blue, c.alpha];
  }

  lemma DepthFits(depth: nat)
    requires depth in [1, 2, 4, 8]
    ensures Pow2(depth) <= 256 && (depth == 8 ==> Pow2(depth) == 256)
  {}

  lemma GreyLevels(v: byte, depth: nat)
    requires depth in [1, 2, 4, 8]
    ensures var sample := v as int / GreyStep(depth);
            0 <= sample < Pow2(depth) && (v as int % GreyStep(depth) == 0 ==> sample * GreyStep(depth) == v as int)
  {}

  lemma HoldsIff(f: Format, t: Tables, c: Rgba)
    requires Accepted(f)
    ensures Holds(f, t, c) <==> exists p: Pixel :: IsPixel(p, f) && Writes(p, c, f, t)
  {
    if Holds(f, t, c) {
      var p := PixelForColour(c, f, t);
    }
    forall p: Pixel | IsPixel(p, f) && Writes(p, c, f, t)
      ensures Holds(f, t, c)
    {
      if f.colour == 0 {
        GreyLevels(c.red, f.depth);
        DivisionIs(c.red, p[0], 0, GreyStep(f.depth));
      }
    }
  }

  /** A palette of these colours, and their alphas. */
  function TablesOf(colours: seq<Rgba>): (t: Tables)
    ensures |t.palette| == 3 * |colours| && |t.trns| == |colours|
  {
    if colours == [] then Tables([], [])
    else
      var n := |colours| - 1;
      var front, c := TablesOf(colours[..n]), colours[n];
      Tables(front.palette + [c.red, c.green, c.blue], front.trns + [c.alpha])
  }

  lemma {:induction false} EntryOfTables(colours: seq<Rgba>, i: nat)
    requires i < |colours|
    ensures IsEntry(i, colours[i], TablesOf(colours))
    decreases |colours|
  {
    var n := |colours| - 1;
    var t := TablesOf(colours);
    if i == n {
      assert t.palette[3 * i..3 * i + 3] == [colours[i].red, colours[i].green, colours[i].blue];
    } else {
      EntryOfTables(colours[..n], i);
      SliceOfAppend(TablesOf(colours[..n]).palette, [colours[n].red, colours[n].green, colours[n].blue],
                    3 * i, 3 * i + 3);
    }
  }

  /** As many colours as a depth can number fit in a palette image. */
  lemma PaletteHolds(colours: seq<Rgba>, depth: nat)
    requires depth in [1, 2, 4, 8] && |colours| <= Pow2(depth)
    ensures forall c :: c in colours ==> Holds(Format(3, depth), TablesOf(colours), c)
  {
    hide IsEntry;
    forall c | c in colours
      ensures Holds(Format(3, depth), TablesOf(colours), c)
    {
      var i: nat :| i < |colours| && colours[i] == c;
      EntryOfTables(colours, i);
    }
  }

  // -------------------------------------------------------- whole pictures

  predicate IsPicture(picture: Picture, width: nat, height: nat)
  {
    |picture| == height && forall y :: 0 <= y < height ==> |picture[y]| == width
  }

  /** The image writes the picture, pixel by pixel. */
  ghost predicate Carries(image: Image, picture: Picture, width: nat, height: nat, f: Format, t: Tables)
    requires Accepted(f) && IsImage(image, width, height, f) && IsPicture(picture, width, height)
  {
    forall x: nat, y: nat :: x < width && y < height ==>
      IsPixel(image[y][x], f) && Writes(image[y][x], picture[y][x], f, t)
  }

  ghost function PixelOf(c: Rgba, f: Format, t: Tables): (p: Pixel)
    requires Accepted(f) && Holds(f, t, c)
    ensures IsPixel(p, f) && Writes(p, c, f, t)
  {
    HoldsIff(f, t, c);
    var p: Pixel :| IsPixel(p, f) && Writes(p, c, f, t);
    p
  }

  /** A picture all of whose colours the format holds can be encoded. */
  lemma PictureHasImage(picture: Picture, width: nat, height: nat, f: Format, t: Tables) returns (image: Image)
    requires Accepted(f) && IsPicture(picture, width, height)
    requires forall x: nat, y: nat :: x < width && y < height ==> Holds(f, t, picture[y][x])
    ensures IsImage(image, width, height, f) && Carries(image, picture, width, height, f, t)
  {
    hide Holds;
    hide Writes;
    hide IsPixel;
    image := seq(height, y requires 0 <= y < height =>
      seq(width, x requires 0 <= x < width => PixelOf(picture[y][x], f, t)));
  }

  /**
   * Whatever the format, the interlacing and the filters, the decoded stream shows the picture that
   * was encoded.
   */
  lemma StreamShowsPicture(picture: Picture, image: Image, width: nat, height: nat, f: Format, t: Tables,
                           interlaced: bool, types: seq<seq<byte>>)
    requires Accepted(f) && IsImage(image, width, height, f) && IsPicture(picture, width, height)
    requires Carries(image, picture, width, height, f, t)
    requires AreFilterChoices(types, Passes(interlaced), width, height)
    ensures var s := Encode(image, width, height, f, interlaced, types);
            && Decodable(s, width, height, f, interlaced)
            && forall x: nat, y: nat :: x < width && y < height ==>
                 Shows(ImageDot(s, width, height, f, t, interlaced, x, y), picture[y][x])
  {
    DecodeInvertsEncode(image, width, height, f, t, interlaced, types);
    hide Decodable, ImageDot, Encode, Colour, Writes, Shows, IsImage;
    var s := Encode(image, width, height, f, interlaced, types);
    forall x: nat, y: nat | x < width && y < height
      ensures Shows(ImageDot(s, width, height, f, t, interlaced, x, y), picture[y][x])
    {
      PixelShows(image[y][x], picture[y][x], f, t);
    }
  }

  /** What png_decode_pass leaves behind the last pass of a stream. */
  ghost predicate IsDecoded(cells: seq<Dot>, s: seq<byte>, width: nat, height: nat, f: Format, t: Tables,
                            interlaced: bool)
    requires Accepted(f) && |s| == InflatedSize(width, height, f, interlaced)
  {
    && |cells| == height * width && Decodable(s, width, height, f, interlaced)
    && forall x: nat, y: nat :: x < width && y < height ==>
         PixelFinal(cells, s, width, height, f, t, interlaced, x, y)
  }

  ghost predicate CellShows(cells: seq<Dot>, picture: Picture, width: nat, height: nat, x: nat, y: nat)
    requires |cells| == height * width && IsPicture(picture, width, height) && x < width && y < height
  {
    CellInside(width, height, x, y);
    Shows(cells[y * width + x], picture[y][x])
  }

  lemma CellIsDecoded(cells: seq<Dot>, picture: Picture, s: seq<byte>, width: nat, height: nat, f: Format,
                      t: Tables, interlaced: bool, x: nat, y: nat)
    requires IsPicture(picture, width, height) && x < width && y < height && |cells| == height * width
    requires Accepted(f) && |s| == InflatedSize(width, height, f, interlaced)
    requires Decodable(s, width, height, f, interlaced)
    requires PixelFinal(cells, s, width, height, f, t, interlaced, x, y)
    requires Shows(ImageDot(s, width, height, f, t, interlaced, x, y), picture[y][x])
    ensures CellShows(cells, picture, width, height, x, y)
  {
    hide Decodable, ImageDot, Shows;
    CellInside(width, height, x, y);
  }

  /** The decoded cells, in the order of the framebuffer, show the picture. */
  lemma CellsShowPicture(cells: seq<Dot>, picture: Picture, image: Image, width: nat, height: nat, f: Format,
                         t: Tables, interlaced: bool, types: seq<seq<byte>>)
    requires Accepted(f) && IsImage(image, width, height, f) && IsPicture(picture, width, height)
    requires Carries(image, picture, width, height, f, t)
    requires AreFilterChoices(types, Passes(interlaced), width, height)
    requires IsDecoded(cells, Encode(image, width, height, f, interlaced, types), width, height, f, t, interlaced)
    ensures forall x: nat, y: nat :: x < width && y < height ==> CellShows(cells, picture, width, height, x, y)
  {
    StreamShowsPicture(picture, image, width, height, f, t, interlaced, types);
    hide Decodable, ImageDot, Encode, Carries, Shows, IsImage, CellShows, PixelFinal;
    var s := Encode(image, width, height, f, interlaced, types);
    forall x: nat, y: nat | x < width && y < height
      ensures CellShows(cells, picture, width, height, x, y)
    {
      CellIsDecoded(cells, picture, s, width, height, f, t, interlaced, x, y);
    }
  }

  lemma CellsAlike(cells: seq<Dot>, others: seq<Dot>, picture: Picture, width: nat, height: nat)
    requires IsPicture(picture, width, height) && |cells| == |others| == height * width
    requires forall x: nat, y: nat :: x < width && y < height ==> CellShows(cells, picture, width, height, x, y)
    requires forall x: nat, y: nat :: x < width && y < height ==> CellShows(others, picture, width, height, x, y)
    ensures cells == others
  {
    hide Shows;
    forall k | 0 <= k < height * width
      ensures cells[k] == others[k]
    {
      Division(height, width, k);
      var x, y := k % width, k / width;
      assert CellShows(cells, picture, width, height, x, y) && CellShows(others, picture, width, height, x, y);
      ShownAlike(cells[k], others[k], picture[y][x]);
    }
  }

  /** All formats that can carry a picture decode to the same cells. */
  lemma FormatsDecodeAlike(picture: Picture, width: nat, height: nat,
                           image: Image, f: Format, t: Tables, i: bool, types: seq<seq<byte>>, cells: seq<Dot>,
                           other: Image, g: Format, u: Tables, j: bool, otherTypes: seq<seq<byte>>, others: seq<Dot>)
    requires IsPicture(picture, width, height)
    requires Accepted(f) && IsImage(image, width, height, f) && Carries(image, picture, width, height, f, t)
    requires Accepted(g) && IsImage(other, width, height, g) && Carries(other, picture, width, height, g, u)
    requires AreFilterChoices(types, Passes(i), width, height)
    requires AreFilterChoices(otherTypes, Passes(j), width, height)
    requires IsDecoded(cells, Encode(image, width, height, f, i, types), width, height, f, t, i)
    requires IsDecoded(others, Encode(other, width, height, g, j, otherTypes), width, height, g, u, j)
    ensures cells == others
  {
    CellsShowPicture(cells, picture, image, width, height, f, t, i, types);
    CellsShowPicture(others, picture, other, width, height, g, u, j, otherTypes);
    hide Encode, Carries, CellShows, IsImage, IsPicture, Decodable, PixelFinal;
    CellsAlike(cells, others, picture, width, height);
  }
}
