/** Sequential and Adam7 decoding of the inflated PNG stream (W3C PNG specification, section 8.2). */
module PngDecode {
  import opened Arithmetic
  import opened Bytes
  import opened ColourFormat
  import opened PngFilter
  import opened PngPixels

  /** A pass takes the pixels at x0 + i * xs, y0 + j * ys. */
  datatype Pass = Pass(x0: nat, y0: nat, xs: nat, ys: nat)

  const Whole := Pass(0, 0, 1, 1)

  const Adam7 := [Pass(0, 0, 8, 8), Pass(4, 0, 8, 8), Pass(0, 4, 4, 8), Pass(2, 0, 4, 4),
                  Pass(0, 2, 2, 4), Pass(1, 0, 2, 2), Pass(0, 1, 1, 2)]

  function Passes(interlaced: bool): (r: seq<Pass>)
    ensures forall p :: p in r ==> p.xs > 0 && p.ys > 0
  {
    if interlaced then Adam7 else [Whole]
  }

  /** How many columns (or rows) of `size` a step from `start` reaches. */
  function Steps(size: nat, start: nat, step: nat): nat
    requires step > 0
  {
    if start >= size then 0 else (size - start + step - 1) / step
  }

  predicate Reaches(start: nat, step: nat, v: nat)
    requires step > 0
  {
    v >= start && (v - start) % step == 0
  }

  predicate InPass(p: Pass, x: nat, y: nat)
    requires p.xs > 0 && p.ys > 0
  {
    Reaches(p.x0, p.xs, x) && Reaches(p.y0, p.ys, y)
  }

  /** The number of octets a pass occupies; empty passes have no filter octets either. */
  function PassSize(p: Pass, width: nat, height: nat, f: Format): nat
    requires p.xs > 0 && p.ys > 0
  {
    var w, h := Steps(width, p.x0, p.xs), Steps(height, p.y0, p.ys);
    if w == 0 || h == 0 then 0 else (RowBytes(w, f) + 1) * h
  }

  function SizeOfPasses(passes: seq<Pass>, width: nat, height: nat, f: Format): nat
    requires forall p :: p in passes ==> p.xs > 0 && p.ys > 0
  {
    if passes == [] then 0
    else SizeOfPasses(passes[..|passes| - 1], width, height, f) +
         PassSize(passes[|passes| - 1], width, height, f)
  }

  // ------------------------------------------------------------- partition

  lemma StepsReach(size: nat, start: nat, step: nat, v: nat)
    requires step > 0 && Reaches(start, step, v)
    ensures v == start + (v - start) / step * step
    ensures v < size <==> (v - start) / step < Steps(size, start, step)
  {
    var i := (v - start) / step;
    assert v - start == i * step;
    if start < size {
      var n := (size - start + step - 1) / step;
      var r := (size - start + step - 1) % step;
      assert size - start + step - 1 == n * step + r;
      if i < n {
        OneMoreTime(i, step);
        TimesGrows(i + 1, n, step);
      } else {
        TimesGrows(n, i, step);
      }
    }
  }

  /** The pass that takes pixel (x, y): the pattern of the specification's 8 by 8 square. */
  function PassOf(x: nat, y: nat): (i: nat)
    ensures i < 7
  {
    Adam7Square[y % 8][x % 8]
  }

  const Adam7Square: seq<seq<nat>> := [
    [0, 5, 3, 5, 1, 5, 3, 5],
    [6, 6, 6, 6, 6, 6, 6, 6],
    [4, 5, 4, 5, 4, 5, 4, 5],
    [6, 6, 6, 6, 6, 6, 6, 6],
    [2, 5, 3, 5, 2, 5, 3, 5],
    [6, 6, 6, 6, 6, 6, 6, 6],
    [4, 5, 4, 5, 4, 5, 4, 5],
    [6, 6, 6, 6, 6, 6, 6, 6]]

  lemma Residue8(x: nat, start: nat)
    requires start < 8
    ensures Reaches(start, 8, x) <==> x % 8 == start
  {
    assert x == 8 * (x / 8) + x % 8;
  }

  lemma Residue4(x: nat, start: nat)
    requires start < 4
    ensures Reaches(start, 4, x) <==> x % 8 % 4 == start
  {
    var q, a := x / 8, x % 8;
    var b, r := a / 4, a % 4;
    assert x == 4 * (2 * q + b) + r;
    assert x - start == 4 * (2 * q + b) + (r - start);
  }

  lemma Residue2(x: nat, start: nat)
    requires start < 2
    ensures Reaches(start, 2, x) <==> x % 8 % 2 == start
  {
    var q, a := x / 8, x % 8;
    var b, r := a / 2, a % 2;
    assert x == 2 * (4 * q + b) + r;
    assert x - start == 2 * (4 * q + b) + (r - start);
  }

  /** Every pixel lies in exactly one of the seven passes. */
  lemma Adam7Partitions(x: nat, y: nat, j: nat)
    requires j < 7
    ensures InPass(Adam7[j], x, y) <==> j == PassOf(x, y)
  {
    Residue8(x, 0); Residue8(y, 0);
    Residue8(x, 4); Residue8(y, 4);
    Residue4(x, 0); Residue4(y, 0);
    Residue4(x, 2); Residue4(y, 2);
    Residue2(x, 0); Residue2(y, 0);
    Residue2(x, 1); Residue2(y, 1);
    SquareIs(x % 8, y % 8, j);
    assert Reaches(0, 1, x);
    hide Reaches;
  }

  /** The square, position by position, against the start and distance of each pass. */
  lemma SquareIs(a: nat, b: nat, j: nat)
    requires a < 8 && b < 8 && j < 7
    ensures Adam7Square[b][a] == j <==>
            if j == 0 then a == 0 && b == 0
            else if j == 1 then a == 4 && b == 0
            else if j == 2 then a % 4 == 0 && b == 4
            else if j == 3 then a % 4 == 2 && b % 4 == 0
            else if j == 4 then a % 2 == 0 && b % 4 == 2
            else if j == 5 then a % 2 == 1 && b % 2 == 0
            else b % 2 == 1
  {
    var row := Adam7Square[b];
    if b == 0 { assert row == [0, 5, 3, 5, 1, 5, 3, 5]; }
    else if b == 4 { assert row == [2, 5, 3, 5, 2, 5, 3, 5]; }
    else if b == 2 || b == 6 { assert row == [4, 5, 4, 5, 4, 5, 4, 5]; }
    else { assert row == [6, 6, 6, 6, 6, 6, 6, 6]; }
  }

  // ---------------------------------------------------------------- cells

  /** Where pixel (x, y) of an image of this width is stored. */
  function Cell(width: nat, x: nat, y: nat): nat { y * width + x }

  lemma MultipleAtLeast(k: int, width: nat)
    ensures k >= 1 ==> k * width >= width
    ensures k <= -1 ==> k * width + width <= 0
  {}

  lemma CellInside(width: nat, height: nat, x: nat, y: nat)
    requires x < width && y < height
    ensures Cell(width, x, y) < height * width
  {
    MultipleAtLeast(height - y, width);
    assert height * width == y * width + (height - y) * width;
  }

  /** Different pixels have different cells. */
  lemma CellsDiffer(width: nat, x: nat, y: nat, u: nat, v: nat)
    requires x < width && u < width && Cell(width, x, y) == Cell(width, u, v)
    ensures x == u && y == v
  {
    MultipleAtLeast(y - v, width);
    assert (y - v) * width == y * width - v * width == u - x;
  }

  /** The rows of a pass, unfiltered; None when a filter type is unknown. */
  function PassRows(src: seq<byte>, pos: nat, p: Pass, width: nat, height: nat, f: Format)
    : (r: Option<seq<seq<byte>>>)
    requires p.xs > 0 && p.ys > 0 && Accepted(f)
    requires pos + PassSize(p, width, height, f) <= |src|
    requires Steps(width, p.x0, p.xs) > 0 && Steps(height, p.y0, p.ys) > 0
    ensures r.Some? ==> |r.value| == Steps(height, p.y0, p.ys) &&
                        forall row :: row in r.value ==> |row| == RowBytes(Steps(width, p.x0, p.xs), f)
  {
    var rowBytes := RowBytes(Steps(width, p.x0, p.xs), f);
    UnfilterRows(src[pos..], rowBytes, Steps(height, p.y0, p.ys), Zeros(rowBytes), FilterBpp(f))
  }

  /** The decoding of one pass: its geometry, its unfiltered rows and the colour tables. */
  datatype Job = Job(p: Pass, width: nat, height: nat, f: Format, t: Tables, rows: seq<seq<byte>>) {
    predicate Ok()
    {
      && p.xs > 0 && p.ys > 0 && Accepted(f)
      && |rows| == Steps(height, p.y0, p.ys)
      && forall row :: row in rows ==> |row| == RowBytes(Steps(width, p.x0, p.xs), f)
    }

    /** The column and row of the pass that pixel (x, y) belongs to. */
    function Column(x: nat): nat
      requires Ok() && Reaches(p.x0, p.xs, x)
    {
      (x - p.x0) / p.xs
    }

    function Line(y: nat): nat
      requires Ok() && Reaches(p.y0, p.ys, y)
    {
      (y - p.y0) / p.ys
    }

    /** What the pass leaves in the cell of pixel (x, y). */
    function Painting(x: nat, y: nat): Dot
      requires Ok() && x < width && y < height && InPass(p, x, y)
    {
      StepsReach(width, p.x0, p.xs, x);
      StepsReach(height, p.y0, p.ys, y);
      RowBytesGrow(Column(x) + 1, Steps(width, p.x0, p.xs), f);
      assert rows[Line(y)] in rows;
      Colour(PixelAt(rows[Line(y)], Column(x), f), f, t)
    }

    /** Pixel (x, y) comes before column px of line py of the pass. */
    predicate Reached(x: nat, y: nat, px: nat, py: nat)
      requires Ok()
    {
      InPass(p, x, y) && (Line(y) < py || (Line(y) == py && Column(x) < px))
    }

    ghost predicate CellDone(before: seq<Dot>, now: seq<Dot>, px: nat, py: nat, x: nat, y: nat)
      requires Ok() && |before| == |now| == height * width && x < width && y < height
    {
      CellInside(width, height, x, y);
      now[Cell(width, x, y)] == if Reached(x, y, px, py) then Painting(x, y) else before[Cell(width, x, y)]
    }

    /** The image when the loops stand at column px of line py. */
    ghost predicate PaintedUpTo(before: seq<Dot>, now: seq<Dot>, px: nat, py: nat)
      requires Ok()
    {
      && |before| == |now| == height * width
      && forall x: nat, y: nat :: x < width && y < height ==> CellDone(before, now, px, py, x, y)
    }
  }

  /** The image after a pass: its own pixels painted, all others as before. */
  ghost predicate Painted(before: seq<Dot>, after: seq<Dot>, j: Job)
    requires j.Ok()
  {
    && |before| == |after| == j.height * j.width
    && forall x: nat, y: nat :: x < j.width && y < j.height ==> CellPainted(before, after, j, x, y)
  }

  ghost predicate CellPainted(before: seq<Dot>, after: seq<Dot>, j: Job, x: nat, y: nat)
    requires j.Ok() && |before| == |after| == j.height * j.width && x < j.width && y < j.height
  {
    CellInside(j.width, j.height, x, y);
    after[Cell(j.width, x, y)] ==
    if InPass(j.p, x, y) then j.Painting(x, y) else before[Cell(j.width, x, y)]
  }

  lemma PaintStarts(image: seq<Dot>, j: Job)
    requires j.Ok() && |image| == j.height * j.width
    ensures j.PaintedUpTo(image, image, 0, 0)
  {}

  lemma LineEnds(before: seq<Dot>, now: seq<Dot>, j: Job, py: nat)
    requires j.Ok() && j.PaintedUpTo(before, now, Steps(j.width, j.p.x0, j.p.xs), py)
    ensures j.PaintedUpTo(before, now, 0, py + 1)
  {
    var next := py + 1;
    forall x: nat, y: nat | x < j.width && y < j.height
      ensures j.CellDone(before, now, 0, next, x, y)
    {
      assert j.CellDone(before, now, Steps(j.width, j.p.x0, j.p.xs), py, x, y);
      if InPass(j.p, x, y) {
        StepsReach(j.width, j.p.x0, j.p.xs, x);
      }
    }
  }

  lemma PassEnds(before: seq<Dot>, now: seq<Dot>, j: Job)
    requires j.Ok() && j.PaintedUpTo(before, now, 0, Steps(j.height, j.p.y0, j.p.ys))
    ensures Painted(before, now, j)
  {
    forall x: nat, y: nat | x < j.width && y < j.height
      ensures CellPainted(before, now, j, x, y)
    {
      assert j.CellDone(before, now, 0, Steps(j.height, j.p.y0, j.p.ys), x, y);
      if InPass(j.p, x, y) {
        StepsReach(j.height, j.p.y0, j.p.ys, y);
      }
    }
  }

  /** Where column px of line py lies in the image. */
  lemma PassPixel(j: Job, px: nat, py: nat)
    requires j.Ok() && px < Steps(j.width, j.p.x0, j.p.xs) && py < Steps(j.height, j.p.y0, j.p.ys)
    ensures var x, y := j.p.x0 + px * j.p.xs, j.p.y0 + py * j.p.ys;
            && x < j.width && y < j.height && InPass(j.p, x, y)
            && j.Column(x) == px && j.Line(y) == py
  {
    MultipleSteps(j.width, j.p.x0, j.p.xs, px);
    MultipleSteps(j.height, j.p.y0, j.p.ys, py);
  }

  lemma MultipleSteps(size: nat, start: nat, step: nat, i: nat)
    requires step > 0 && i < Steps(size, start, step)
    ensures var v := start + i * step;
            v < size && Reaches(start, step, v) && (v - start) / step == i
  {
    var v := start + i * step;
    DivisionIs(v - start, i, 0, step);
    hide Steps;
    StepsReach(size, start, step, v);
  }

  /** Storing the pixel at column px of line py finishes its cell and leaves every other cell. */
  lemma CellAfterStore(before: seq<Dot>, now: seq<Dot>, j: Job, px: nat, py: nat, after: seq<Dot>, u: nat, v: nat)
    requires j.Ok() && px < Steps(j.width, j.p.x0, j.p.xs) && py < Steps(j.height, j.p.y0, j.p.ys)
    requires |before| == |now| == |after| == j.height * j.width && u < j.width && v < j.height
    requires Cell(j.width, u, v) < |after| && j.CellDone(before, now, px, py, u, v)
    requires var x, y := j.p.x0 + px * j.p.xs, j.p.y0 + py * j.p.ys;
             && x < j.width && y < j.height && InPass(j.p, x, y)
             && (after[Cell(j.width, u, v)] ==
                 if Cell(j.width, u, v) == Cell(j.width, x, y) then j.Painting(x, y)
                 else now[Cell(j.width, u, v)])
    ensures j.CellDone(before, after, px + 1, py, u, v)
  {
    hide Job.Painting;
    PassPixel(j, px, py);
    var x, y := j.p.x0 + px * j.p.xs, j.p.y0 + py * j.p.ys;
    if Cell(j.width, u, v) == Cell(j.width, x, y) {
      CellsDiffer(j.width, x, y, u, v);
    } else if InPass(j.p, u, v) {
      StepsReach(j.width, j.p.x0, j.p.xs, u);
      StepsReach(j.height, j.p.y0, j.p.ys, v);
      assert u == j.p.x0 + j.Column(u) * j.p.xs && v == j.p.y0 + j.Line(v) * j.p.ys;
      assert !(j.Column(u) == px && j.Line(v) == py);
    }
  }

  lemma PixelPainted(before: seq<Dot>, now: seq<Dot>, j: Job, px: nat, py: nat, after: seq<Dot>)
    requires j.Ok() && px < Steps(j.width, j.p.x0, j.p.xs) && py < Steps(j.height, j.p.y0, j.p.ys)
    requires j.PaintedUpTo(before, now, px, py)
    requires var x, y := j.p.x0 + px * j.p.xs, j.p.y0 + py * j.p.ys;
             && Cell(j.width, x, y) < |now|
             && RowBytes(px + 1, j.f) <= |j.rows[py]|
             && after == now[Cell(j.width, x, y) := Colour(PixelAt(j.rows[py], px, j.f), j.f, j.t)]
    ensures j.PaintedUpTo(before, after, px + 1, py)
  {
    hide Colour;
    hide PixelAt;
    hide Job.CellDone;
    PassPixel(j, px, py);
    var next := px + 1;
    forall u: nat, v: nat | u < j.width && v < j.height
      ensures j.CellDone(before, after, next, py, u, v)
    {
      CellInside(j.width, j.height, u, v);
      CellAfterStore(before, now, j, px, py, after, u, v);
    }
  }

  /** The one sample of a grey or palette pixel. */
  function SampleAt(row: seq<byte>, x: nat, f: Format): (s: byte)
    requires Accepted(f) && (f.colour == 0 || f.colour == 3) && RowBytes(x + 1, f) <= |row|
    ensures s < Pow2(f.depth)
  {
    PixelInside(x, f);
    PackedSample(row, x, f.depth)
  }

  /** The octets of a pixel, colour type by colour type. */
  lemma PixelOctets(row: seq<byte>, x: nat, f: Format)
    requires Accepted(f) && RowBytes(x + 1, f) <= |row|
    ensures var p := PixelAt(row, x, f);
            && (f.colour == 0 || f.colour == 3 ==> p == [SampleAt(row, x, f)])
            && (f.colour == 2 ==> x * 3 + 3 <= |row| && p == [row[x * 3], row[x * 3 + 1], row[x * 3 + 2]])
            && (f.colour == 4 ==> x * 2 + 2 <= |row| && p == [row[x * 2], row[x * 2 + 1]])
            && (f.colour == 6 ==>
                  x * 4 + 4 <= |row| && p == [row[x * 4], row[x * 4 + 1], row[x * 4 + 2], row[x * 4 + 3]])
  {
    hide PackedSample;
    PixelInside(x, f);
  }

  /** png_store_pixel. */
  method StorePixel(image: array<Dot>, dst: nat, row: seq<byte>, x: nat, f: Format, t: Tables)
    requires Accepted(f) && RowBytes(x + 1, f) <= |row| && dst < image.Length
    modifies image
    ensures image[..] == old(image[..])[dst := Colour(PixelAt(row, x, f), f, t)]
  {
    hide *;
    var r, g, b, a := SplitPixel(row, x, f, t);
    image[dst] := Dot(Rgb565(r, g, b), a);
  }

  /** The switch over the colour type. */
  method SplitPixel(row: seq<byte>, x: nat, f: Format, t: Tables) returns (r: byte, g: byte, b: byte, a: byte)
    requires Accepted(f) && RowBytes(x + 1, f) <= |row|
    ensures Dot(Rgb565(r, g, b), a) == Colour(PixelAt(row, x, f), f, t)
  {
    PixelOctets(row, x, f);
    hide SampleAt, ScaleSample, Rgb565, PixelAt, RowBytes, Pow2;
    r, g, b, a := 0, 0, 0, 255;
    if f.colour == 0 {
      var sample := SampleAt(row, x, f);
      r := ScaleSample(sample, f.depth);
      g, b := r, r;
      if |t.trns| >= 2 && sample as int == t.trns[0] as int * 256 + t.trns[1] as int {
        a := 0;
      }
    } else if f.colour == 2 {
      r, g, b := row[x * 3], row[x * 3 + 1], row[x * 3 + 2];
      if |t.trns| >= 6 && r == t.trns[1] && g == t.trns[3] && b == t.trns[5] {
        a := 0;
      }
    } else if f.colour == 3 {
      r, g, b, a := SplitPalette(SampleAt(row, x, f), t);
    } else if f.colour == 4 {
      r, a := row[x * 2], row[x * 2 + 1];
      g, b := r, r;
    } else if f.colour == 6 {
      r, g, b, a := row[x * 4], row[x * 4 + 1], row[x * 4 + 2], row[x * 4 + 3];
    }
  }

  lemma NoColour()
    ensures Rgb565(0, 0, 0) == 0
  {}

  /** A palette entry, black when the palette is too short, opaque when the tRNS chunk is. */
  method SplitPalette(i: byte, t: Tables) returns (r: byte, g: byte, b: byte, a: byte)
    ensures Dot(Rgb565(r, g, b), a) ==
            if i as int < |t.palette| / 3
            then Dot(Rgb565(t.palette[i as int * 3], t.palette[i as int * 3 + 1], t.palette[i as int * 3 + 2]),
                     if i as int < |t.trns| then t.trns[i] else 255)
            else Dot(0, 255)
  {
    NoColour();
    hide Rgb565;
    r, g, b, a := 0, 0, 0, 255;
    var n: int := i;
    if n < |t.palette| / 3 {
      r, g, b := t.palette[n * 3], t.palette[n * 3 + 1], t.palette[n * 3 + 2];
      if n < |t.trns| {
        a := t.trns[n];
      }
    }
  }

  /** The loops of png_decode_pass over the unfiltered rows of a pass. */
  method PaintPass(image: array<Dot>, j: Job)
    requires j.Ok() && image.Length == j.height * j.width
    modifies image
    ensures Painted(old(image[..]), image[..], j)
  {
    hide Colour;
    hide PixelAt;
    hide Job.PaintedUpTo;
    hide Painted;
    ghost var before := image[..];
    var passW, passH := Steps(j.width, j.p.x0, j.p.xs), Steps(j.height, j.p.y0, j.p.ys);
    PaintStarts(before, j);
    for py := 0 to passH
      invariant j.PaintedUpTo(before, image[..], 0, py)
    {
      var y := j.p.y0 + py * j.p.ys;
      for px := 0 to passW
        invariant j.PaintedUpTo(before, image[..], px, py)
      {
        var x := j.p.x0 + px * j.p.xs;
        ghost var now := image[..];
        assert j.rows[py] in j.rows;
        RowBytesGrow(px + 1, passW, j.f);
        PassPixel(j, px, py);
        CellInside(j.width, j.height, x, y);
        StorePixel(image, y * j.width + x, j.rows[py], px, j.f, j.t);
        PixelPainted(before, now, j, px, py, image[..]);
      }
      LineEnds(before, image[..], j, py);
    }
    PassEnds(before, image[..], j);
  }

  // ---------------------------------------------------------------- driver

  function InflatedSize(width: nat, height: nat, f: Format, interlaced: bool): nat
  {
    SizeOfPasses(Passes(interlaced), width, height, f)
  }

  predicate IsEmpty(p: Pass, width: nat, height: nat)
  {
    p.x0 >= width || p.y0 >= height
  }

  lemma StepsPositive(size: nat, start: nat, step: nat)
    requires step > 0
    ensures Steps(size, start, step) > 0 <==> start < size
  {
    if start < size {
      assert (size - start + step - 1) / step >= 1;
    }
  }

  lemma SizeOfOneMore(passes: seq<Pass>, i: nat, width: nat, height: nat, f: Format)
    requires (forall p :: p in passes ==> p.xs > 0 && p.ys > 0) && i < |passes|
    ensures SizeOfPasses(passes[..i + 1], width, height, f) ==
            SizeOfPasses(passes[..i], width, height, f) + PassSize(passes[i], width, height, f)
    ensures SizeOfPasses(passes[..0], width, height, f) == 0
    ensures passes[..|passes|] == passes
  {
    hide PassSize;
    assert passes[..i + 1][..i] == passes[..i];
  }

  lemma PassSizeIs(p: Pass, width: nat, height: nat, f: Format)
    requires p.xs > 0 && p.ys > 0
    ensures PassSize(p, width, height, f) ==
            if p.x0 >= width || p.y0 >= height then 0
            else (RowBytes((width - p.x0 + p.xs - 1) / p.xs, f) + 1) * ((height - p.y0 + p.ys - 1) / p.ys)
  {
    hide RowBytes;
    StepsPositive(width, p.x0, p.xs);
    StepsPositive(height, p.y0, p.ys);
  }

  /** png_inflated_size. */
  method ComputeInflatedSize(width: nat, height: nat, f: Format, interlaced: bool) returns (total: nat)
    requires width > 0 && height > 0
    ensures total == InflatedSize(width, height, f, interlaced)
  {
    hide RowBytes, Steps, PassSize, SizeOfPasses;
    if !interlaced {
      PassSizeIs(Whole, width, height, f);
      SizeOfOneMore([Whole], 0, width, height, f);
      return (RowBytes(width, f) + 1) * height;
    }
    total := 0;
    SizeOfOneMore(Adam7, 0, width, height, f);
    for i := 0 to 7
      invariant total == SizeOfPasses(Adam7[..i], width, height, f)
    {
      var p := Adam7[i];
      SizeOfOneMore(Adam7, i, width, height, f);
      PassSizeIs(p, width, height, f);
      if p.x0 >= width || p.y0 >= height {
        continue;
      }
      var passW := (width - p.x0 + p.xs - 1) / p.xs;
      var passH := (height - p.y0 + p.ys - 1) / p.ys;
      total := total + (RowBytes(passW, f) + 1) * passH;
    }
    assert Adam7[..7] == Adam7;
  }

  /** Where pass i begins in the stream. */
  function PassStart(i: nat, width: nat, height: nat, f: Format, interlaced: bool): nat
    requires i <= |Passes(interlaced)|
  {
    SizeOfPasses(Passes(interlaced)[..i], width, height, f)
  }

  lemma {:induction false} SizeOfPrefix(passes: seq<Pass>, i: nat, width: nat, height: nat, f: Format)
    requires forall p :: p in passes ==> p.xs > 0 && p.ys > 0
    requires i <= |passes|
    ensures SizeOfPasses(passes[..i], width, height, f) <= SizeOfPasses(passes, width, height, f)
    ensures i < |passes| ==>
              SizeOfPasses(passes[..i], width, height, f) + PassSize(passes[i], width, height, f) ==
              SizeOfPasses(passes[..i + 1], width, height, f) <= SizeOfPasses(passes, width, height, f)
    decreases |passes|
  {
    hide PassSize;
    if i == |passes| {
      assert passes[..i] == passes;
    } else {
      assert passes[..i + 1][..i] == passes[..i];
      if i + 1 == |passes| {
        assert passes[..i + 1] == passes;
      } else {
        var front := passes[..|passes| - 1];
        assert front[..i] == passes[..i] && front[..i + 1] == passes[..i + 1] && front[i] == passes[i];
        SizeOfPrefix(front, i, width, height, f);
      }
    }
  }

  /** The rows of pass i of the stream. */
  function StreamRows(src: seq<byte>, i: nat, width: nat, height: nat, f: Format, interlaced: bool)
    : (r: Option<seq<seq<byte>>>)
    requires Accepted(f) && i < |Passes(interlaced)| && |src| == InflatedSize(width, height, f, interlaced)
    requires !IsEmpty(Passes(interlaced)[i], width, height)
    ensures r.Some? ==> forall t: Tables :: Job(Passes(interlaced)[i], width, height, f, t, r.value).Ok()
  {
    var p := Passes(interlaced)[i];
    SizeOfPrefix(Passes(interlaced), i, width, height, f);
    StepsPositive(width, p.x0, p.xs);
    StepsPositive(height, p.y0, p.ys);
    PassRows(src, PassStart(i, width, height, f, interlaced), p, width, height, f)
  }

  /** No row of the stream has an unknown filter type. */
  ghost predicate Decodable(src: seq<byte>, width: nat, height: nat, f: Format, interlaced: bool)
    requires Accepted(f) && |src| == InflatedSize(width, height, f, interlaced)
  {
    forall i: nat :: i < |Passes(interlaced)| && !IsEmpty(Passes(interlaced)[i], width, height) ==>
      StreamRows(src, i, width, height, f, interlaced).Some?
  }

  function PassIndex(x: nat, y: nat, interlaced: bool): (i: nat)
    ensures i < |Passes(interlaced)|
    ensures InPass(Passes(interlaced)[i], x, y)
  {
    if interlaced then Adam7Partitions(x, y, PassOf(x, y)); PassOf(x, y) else 0
  }

  /** The cell of pixel (x, y) in the decoded image. */
  ghost function ImageDot(src: seq<byte>, width: nat, height: nat, f: Format, t: Tables, interlaced: bool,
                          x: nat, y: nat): Dot
    requires Accepted(f) && |src| == InflatedSize(width, height, f, interlaced)
    requires Decodable(src, width, height, f, interlaced) && x < width && y < height
  {
    var i := PassIndex(x, y, interlaced);
    var p := Passes(interlaced)[i];
    assert !IsEmpty(p, width, height);
    Job(p, width, height, f, t, StreamRows(src, i, width, height, f, interlaced).value).Painting(x, y)
  }

  /** png_decode_pass. */
  method DecodePass(image: array<Dot>, src: seq<byte>, pos: nat, p: Pass, width: nat, height: nat,
                    f: Format, t: Tables) returns (ok: bool, next: nat)
    requires p.xs > 0 && p.ys > 0 && Accepted(f) && image.Length == height * width
    requires pos + PassSize(p, width, height, f) <= |src|
    modifies image
    ensures next == pos + PassSize(p, width, height, f)
    ensures IsEmpty(p, width, height) ==> ok && image[..] == old(image[..])
    ensures !IsEmpty(p, width, height) ==>
              && Steps(width, p.x0, p.xs) > 0 && Steps(height, p.y0, p.ys) > 0
              && var rows := PassRows(src, pos, p, width, height, f);
                 && (ok <==> rows.Some?)
                 && (ok ==> Painted(old(image[..]), image[..], Job(p, width, height, f, t, rows.value)))
  {
    hide RowBytes;
    hide Painted;
    StepsPositive(width, p.x0, p.xs);
    StepsPositive(height, p.y0, p.ys);
    if p.x0 >= width || p.y0 >= height {
      return true, pos;
    }
    var passW := (width - p.x0 + p.xs - 1) / p.xs;
    var passH := (height - p.y0 + p.ys - 1) / p.ys;
    var rowBytes := RowBytes(passW, f);
    next := pos + (rowBytes + 1) * passH;
    var buffer := new byte[passH * rowBytes](_ => 0);
    ok := UnfilterPng(buffer, src[pos..], rowBytes, passH, FilterBpp(f));
    if !ok {
      return;
    }
    var rows := Rows(buffer, rowBytes, passH, PassRows(src, pos, p, width, height, f).value);
    PaintPass(image, Job(p, width, height, f, t, rows));
  }

  /** The rows as the painting loops address them inside the buffer. */
  method Rows(buffer: array<byte>, rowBytes: nat, height: nat, ghost expected: seq<seq<byte>>)
    returns (rows: seq<seq<byte>>)
    requires |expected| == height && HoldsRows(buffer[..], rowBytes, expected)
    ensures rows == expected
  {
    rows := [];
    for y := 0 to height
      invariant rows == expected[..y]
    {
      RowBounds(rowBytes, y, height);
      assert RowAt(buffer[..], rowBytes, y) == expected[y];
      assert buffer[y * rowBytes..y * rowBytes + rowBytes] == buffer[..][y * rowBytes..y * rowBytes + rowBytes];
      rows := rows + [buffer[y * rowBytes..y * rowBytes + rowBytes]];
    }
  }

  /** The pixels of the first n passes are final. */
  ghost predicate PassesPainted(image: seq<Dot>, n: nat, src: seq<byte>, width: nat, height: nat, f: Format,
                                t: Tables, interlaced: bool)
    requires Accepted(f) && |src| == InflatedSize(width, height, f, interlaced)
    requires Decodable(src, width, height, f, interlaced)
  {
    && |image| == height * width
    && forall x: nat, y: nat :: x < width && y < height && PassIndex(x, y, interlaced) < n ==>
         PixelFinal(image, src, width, height, f, t, interlaced, x, y)
  }

  ghost predicate PixelFinal(image: seq<Dot>, src: seq<byte>, width: nat, height: nat, f: Format,
                             t: Tables, interlaced: bool, x: nat, y: nat)
    requires Accepted(f) && |src| == InflatedSize(width, height, f, interlaced)
    requires Decodable(src, width, height, f, interlaced)
    requires |image| == height * width && x < width && y < height
  {
    CellInside(width, height, x, y);
    image[Cell(width, x, y)] == ImageDot(src, width, height, f, t, interlaced, x, y)
  }

  /** A later pass leaves the pixels of the earlier ones alone and finishes its own. */
  lemma OnePassMore(before: seq<Dot>, after: seq<Dot>, i: nat, src: seq<byte>, width: nat, height: nat,
                    f: Format, t: Tables, interlaced: bool)
    requires Accepted(f) && |src| == InflatedSize(width, height, f, interlaced)
    requires Decodable(src, width, height, f, interlaced) && i < |Passes(interlaced)|
    requires PassesPainted(before, i, src, width, height, f, t, interlaced)
    requires var p := Passes(interlaced)[i];
             if IsEmpty(p, width, height) then after == before
             else Painted(before, after, Job(p, width, height, f, t,
                                             StreamRows(src, i, width, height, f, interlaced).value))
    ensures PassesPainted(after, i + 1, src, width, height, f, t, interlaced)
  {
    hide StreamRows;
    hide Job.Painting;
    var p := Passes(interlaced)[i];
    forall x: nat, y: nat | x < width && y < height && PassIndex(x, y, interlaced) < i + 1
      ensures PixelFinal(after, src, width, height, f, t, interlaced, x, y)
    {
      CellInside(width, height, x, y);
      PassUnique(x, y, i, interlaced);
      if PassIndex(x, y, interlaced) < i {
        assert PixelFinal(before, src, width, height, f, t, interlaced, x, y);
      }
      assert !IsEmpty(p, width, height) ==>
          CellPainted(before, after, Job(p, width, height, f, t,
                                         StreamRows(src, i, width, height, f, interlaced).value), x, y);
    }
  }

  lemma PassUnique(x: nat, y: nat, i: nat, interlaced: bool)
    requires i < |Passes(interlaced)|
    ensures InPass(Passes(interlaced)[i], x, y) <==> i == PassIndex(x, y, interlaced)
  {
    if interlaced {
      Adam7Partitions(x, y, i);
    }
  }

  /**
   * The pass driver of unifrog_png_load_file: decode every pass, then check that the stream is
   * used up.
   */
  method DecodeImage(image: array<Dot>, inflated: seq<byte>, width: nat, height: nat, f: Format,
                     t: Tables, interlaced: bool) returns (ok: bool)
    requires Accepted(f) && image.Length == height * width
    requires |inflated| == InflatedSize(width, height, f, interlaced)
    modifies image
    ensures ok <==> Decodable(inflated, width, height, f, interlaced)
    ensures ok ==> forall x: nat, y: nat :: x < width && y < height ==>
                     PixelFinal(image[..], inflated, width, height, f, t, interlaced, x, y)
  {
    hide Painted;
    hide PixelFinal;
    hide PassSize;
    hide PassRows;
    var passes := Passes(interlaced);
    var pos: nat := 0;
    ghost var decodable := Decodable(inflated, width, height, f, interlaced);
    for i := 0 to |passes|
      invariant pos == PassStart(i, width, height, f, interlaced)
      invariant forall k: nat :: k < i && !IsEmpty(passes[k], width, height) ==>
                  StreamRows(inflated, k, width, height, f, interlaced).Some?
      invariant decodable ==> PassesPainted(image[..], i, inflated, width, height, f, t, interlaced)
    {
      ghost var before := image[..];
      SizeOfPrefix(passes, i, width, height, f);
      var decoded, next := DecodePass(image, inflated, pos, passes[i], width, height, f, t);
      assert IsEmpty(passes[i], width, height) || decoded == StreamRows(inflated, i, width, height, f, interlaced).Some?;
      if !decoded {
        return false;
      }
      if decodable {
        OnePassMore(before, image[..], i, inflated, width, height, f, t, interlaced);
      }
      pos := next;
    }
    assert passes[..|passes|] == passes;
    ok := pos == |inflated|;
  }
}
