/** Any image, interlaced or not and with any choice of filters, decodes to its own pixels. */
module PngRoundTrip {
  import opened Bytes
  import opened PngDecode
  import opened PngFilter
  import opened PngPixels

  /** Rows of pixels. */
  type Image = seq<seq<Pixel>>

  predicate IsImage(image: Image, width: nat, height: nat, f: Format)
  {
    |image| == height && forall y :: 0 <= y < height ==> |image[y]| == width && IsRow(image[y], f)
  }

  /** A filter type for every line of a pass; an empty pass has none. */
  predicate IsFilterChoice(types: seq<byte>, p: Pass, width: nat, height: nat)
    requires p.xs > 0 && p.ys > 0
  {
    && |types| == (if IsEmpty(p, width, height) then 0 else Steps(height, p.y0, p.ys))
    && forall t :: t in types ==> t <= 4
  }

  // -------------------------------------------------------------- encoding

  /** The pixel at column px of line py of a pass. */
  function PassPixelOf(image: Image, p: Pass, width: nat, height: nat, f: Format, px: nat, py: nat): (r: Pixel)
    requires p.xs > 0 && p.ys > 0 && IsImage(image, width, height, f)
    requires px < Steps(width, p.x0, p.xs) && py < Steps(height, p.y0, p.ys)
    ensures IsPixel(r, f)
  {
    MultipleSteps(height, p.y0, p.ys, py);
    MultipleSteps(width, p.x0, p.xs, px);
    var row := image[p.y0 + py * p.ys];
    assert IsPixel(row[p.x0 + px * p.xs], f);
    row[p.x0 + px * p.xs]
  }

  /** Line py of a pass. */
  function PassLine(image: Image, p: Pass, width: nat, height: nat, f: Format, py: nat): (line: seq<Pixel>)
    requires p.xs > 0 && p.ys > 0 && IsImage(image, width, height, f) && py < Steps(height, p.y0, p.ys)
    ensures |line| == Steps(width, p.x0, p.xs) && IsRow(line, f)
  {
    seq(Steps(width, p.x0, p.xs), px requires 0 <= px < Steps(width, p.x0, p.xs) =>
      PassPixelOf(image, p, width, height, f, px, py))
  }

  function PassLines(image: Image, p: Pass, width: nat, height: nat, f: Format): (rows: seq<seq<byte>>)
    requires p.xs > 0 && p.ys > 0 && Accepted(f) && IsImage(image, width, height, f)
    ensures |rows| == Steps(height, p.y0, p.ys)
    ensures forall row :: row in rows ==> |row| == RowBytes(Steps(width, p.x0, p.xs), f)
  {
    seq(Steps(height, p.y0, p.ys), py requires 0 <= py < Steps(height, p.y0, p.ys) =>
      PackRow(PassLine(image, p, width, height, f, py), f))
  }

  function EncodePass(image: Image, p: Pass, width: nat, height: nat, f: Format, types: seq<byte>): (s: seq<byte>)
    requires p.xs > 0 && p.ys > 0 && Accepted(f) && IsImage(image, width, height, f)
    requires IsFilterChoice(types, p, width, height)
    ensures |s| == PassSize(p, width, height, f)
  {
    StepsPositive(width, p.x0, p.xs);
    StepsPositive(height, p.y0, p.ys);
    if IsEmpty(p, width, height) then []
    else
      var rowBytes := RowBytes(Steps(width, p.x0, p.xs), f);
      FilterRows(PassLines(image, p, width, height, f), types, Zeros(rowBytes), FilterBpp(f))
  }

  ghost predicate AreFilterChoices(types: seq<seq<byte>>, passes: seq<Pass>, width: nat, height: nat)
    requires forall p :: p in passes ==> p.xs > 0 && p.ys > 0
  {
    |types| == |passes| && forall i :: 0 <= i < |passes| ==> IsFilterChoice(types[i], passes[i], width, height)
  }

  /** The passes one behind the other. */
  ghost function EncodePasses(image: Image, passes: seq<Pass>, width: nat, height: nat, f: Format,
                              types: seq<seq<byte>>): (s: seq<byte>)
    requires forall p :: p in passes ==> p.xs > 0 && p.ys > 0
    requires Accepted(f) && IsImage(image, width, height, f) && AreFilterChoices(types, passes, width, height)
    ensures |s| == SizeOfPasses(passes, width, height, f)
    decreases |passes|
  {
    if passes == [] then []
    else
      var n := |passes| - 1;
      EncodePasses(image, passes[..n], width, height, f, types[..n]) +
      EncodePass(image, passes[n], width, height, f, types[n])
  }

  ghost function Encode(image: Image, width: nat, height: nat, f: Format, interlaced: bool,
                        types: seq<seq<byte>>): (s: seq<byte>)
    requires Accepted(f) && IsImage(image, width, height, f)
    requires AreFilterChoices(types, Passes(interlaced), width, height)
    ensures |s| == InflatedSize(width, height, f, interlaced)
  {
    EncodePasses(image, Passes(interlaced), width, height, f, types)
  }

  // -------------------------------------------------------------- decoding

  lemma {:induction false} PassInside(image: Image, passes: seq<Pass>, width: nat, height: nat, f: Format,
                                      types: seq<seq<byte>>, i: nat) returns (more: seq<byte>)
    requires forall p :: p in passes ==> p.xs > 0 && p.ys > 0
    requires Accepted(f) && IsImage(image, width, height, f) && AreFilterChoices(types, passes, width, height)
    requires i < |passes|
    ensures SizeOfPasses(passes[..i], width, height, f) <= SizeOfPasses(passes, width, height, f)
    ensures EncodePasses(image, passes, width, height, f, types)[SizeOfPasses(passes[..i], width, height, f)..] ==
            EncodePass(image, passes[i], width, height, f, types[i]) + more
    decreases |passes|
  {
    hide EncodePass;
    hide IsImage;
    hide IsFilterChoice;
    var n := |passes| - 1;
    var start := SizeOfPasses(passes[..i], width, height, f);
    SizeOfPrefix(passes, i, width, height, f);
    var front := EncodePasses(image, passes[..n], width, height, f, types[..n]);
    var last := EncodePass(image, passes[n], width, height, f, types[n]);
    if i == n {
      more := [];
      assert (front + last)[start..] == last + [];
    } else {
      assert passes[..n][..i] == passes[..i];
      var rest := PassInside(image, passes[..n], width, height, f, types[..n], i);
      more := rest + last;
      assert (front + last)[start..] == front[start..] + last;
      var mine := EncodePass(image, passes[i], width, height, f, types[i]);
      assert mine + rest + last == mine + (rest + last);
    }
  }

  /** The rows the decoder finds for pass i are the packed lines of the pass. */
  lemma PassRowsFound(image: Image, width: nat, height: nat, f: Format, interlaced: bool,
                      types: seq<seq<byte>>, i: nat)
    requires Accepted(f) && IsImage(image, width, height, f)
    requires AreFilterChoices(types, Passes(interlaced), width, height)
    requires i < |Passes(interlaced)| && !IsEmpty(Passes(interlaced)[i], width, height)
    ensures StreamRows(Encode(image, width, height, f, interlaced, types), i, width, height, f, interlaced) ==
            Some(PassLines(image, Passes(interlaced)[i], width, height, f))
  {
    hide PassLines;
    hide FilterRows;
    hide UnfilterRows;
    var p := Passes(interlaced)[i];
    var s := Encode(image, width, height, f, interlaced, types);
    var more := PassInside(image, Passes(interlaced), width, height, f, types, i);
    var rowBytes := RowBytes(Steps(width, p.x0, p.xs), f);
    StepsPositive(width, p.x0, p.xs);
    StepsPositive(height, p.y0, p.ys);
    UnfilterInvertsFilter(PassLines(image, p, width, height, f), types[i], Zeros(rowBytes), FilterBpp(f), more);
  }

  lemma PixelFound(image: Image, width: nat, height: nat, f: Format, t: Tables, p: Pass, x: nat, y: nat)
    requires p.xs > 0 && p.ys > 0 && Accepted(f) && IsImage(image, width, height, f)
    requires x < width && y < height && InPass(p, x, y)
    ensures var j := Job(p, width, height, f, t, PassLines(image, p, width, height, f));
            j.Ok() && IsPixel(image[y][x], f) && j.Painting(x, y) == Colour(image[y][x], f, t)
  {
    hide PackRow;
    hide PixelAt;
    hide Colour;
    var j := Job(p, width, height, f, t, PassLines(image, p, width, height, f));
    StepsReach(width, p.x0, p.xs, x);
    StepsReach(height, p.y0, p.ys, y);
    var px, py := j.Column(x), j.Line(y);
    var line := PassLine(image, p, width, height, f, py);
    assert line[px] == image[y][x];
    assert IsRow(image[y], f);
    PixelOfPackedRow(line, f, px);
  }

  /** Decoding inverts encoding, pixel by pixel. */
  lemma DecodeInvertsEncode(image: Image, width: nat, height: nat, f: Format, t: Tables, interlaced: bool,
                            types: seq<seq<byte>>)
    requires Accepted(f) && IsImage(image, width, height, f)
    requires AreFilterChoices(types, Passes(interlaced), width, height)
    ensures var s := Encode(image, width, height, f, interlaced, types);
            && Decodable(s, width, height, f, interlaced)
            && forall x: nat, y: nat :: x < width && y < height ==>
                 IsPixel(image[y][x], f) &&
                 ImageDot(s, width, height, f, t, interlaced, x, y) == Colour(image[y][x], f, t)
  {
    hide StreamRows;
    hide PassLines;
    hide Colour;
    hide Job.Painting;
    var s := Encode(image, width, height, f, interlaced, types);
    var passes := Passes(interlaced);
    forall i: nat | i < |passes| && !IsEmpty(passes[i], width, height)
      ensures StreamRows(s, i, width, height, f, interlaced) == Some(PassLines(image, passes[i], width, height, f))
    {
      PassRowsFound(image, width, height, f, interlaced, types, i);
    }
    forall x: nat, y: nat | x < width && y < height
      ensures IsPixel(image[y][x], f)
      ensures ImageDot(s, width, height, f, t, interlaced, x, y) == Colour(image[y][x], f, t)
    {
      var p := passes[PassIndex(x, y, interlaced)];
      PixelFound(image, width, height, f, t, p, x, y);
      assert !IsEmpty(p, width, height);
    }
  }

  /** The interlaced and the sequential stream of one image decode to the same image. */
  lemma Adam7EqualsSequential(image: Image, width: nat, height: nat, f: Format, t: Tables,
                              adam7Types: seq<seq<byte>>, rowTypes: seq<seq<byte>>)
    requires Accepted(f) && IsImage(image, width, height, f)
    requires AreFilterChoices(adam7Types, Passes(true), width, height)
    requires AreFilterChoices(rowTypes, Passes(false), width, height)
    ensures var interlaced := Encode(image, width, height, f, true, adam7Types);
            var sequential := Encode(image, width, height, f, false, rowTypes);
            && Decodable(interlaced, width, height, f, true)
            && Decodable(sequential, width, height, f, false)
            && forall x: nat, y: nat :: x < width && y < height ==>
                 ImageDot(interlaced, width, height, f, t, true, x, y) ==
                 ImageDot(sequential, width, height, f, t, false, x, y)
  {
    DecodeInvertsEncode(image, width, height, f, t, true, adam7Types);
    DecodeInvertsEncode(image, width, height, f, t, false, rowTypes);
  }
}
