// The boot logo: the build tool packs an image into (colour, run) words and the firmware expands
// them straight into the middle of the framebuffer.

module BootLogo {
  import opened Bytes
  import opened ColourFormat

  const WIDTH: nat := 320
  const HEIGHT: nat := 240
  const LOGO_PIXELS: nat := 76800
  const RUN_MAX: nat := 65535

  datatype Rgb = Rgb(r: byte, g: byte, b: byte)

  // ---------------------------------------------------------------- the build tool

  function ColourOf(px: Rgb): u16 { Rgb565(px.r, px.g, px.b) }

  function Colours(pixels: seq<Rgb>): (r: seq<u16>)
    ensures |r| == |pixels|
  {
    seq(|pixels|, i requires 0 <= i < |pixels| => ColourOf(pixels[i]))
  }

  function Repeat(c: u16, n: nat): (r: seq<u16>)
    ensures |r| == n
  {
    seq(n, _ => c)
  }

  // What the words stand for; a lone last word stands for nothing.
  function Expand(words: seq<u16>): seq<u16>
  {
    if |words| < 2 then [] else Repeat(words[0], words[1] as nat) + Expand(words[2..])
  }

  lemma {:induction false} ExpandAppend(words: seq<u16>, c: u16, run: u16)
    requires |words| % 2 == 0
    ensures Expand(words + [c, run]) == Expand(words) + Repeat(c, run as nat)
  {
    if words == [] {
      assert [c, run][2..] == [];
      assert words + [c, run] == [c, run];
    } else {
      assert (words + [c, run])[2..] == words[2..] + [c, run];
      ExpandAppend(words[2..], c, run);
    }
  }

  // No run is empty, and a run is followed by one of its own colour only when it is full.
  ghost predicate Packed(words: seq<u16>)
  {
    |words| % 2 == 0 && forall j :: 0 <= j < |words| / 2 ==> RunPacked(words, j)
  }

  ghost predicate RunPacked(words: seq<u16>, j: nat)
    requires 2 * j + 1 < |words|
  {
    && words[2 * j + 1] != 0
    && (2 * j + 3 < |words| && words[2 * j + 2] == words[2 * j] ==> words[2 * j + 1] as nat == RUN_MAX)
  }

  // A run may be added unless the last one has its colour and is not full.
  ghost predicate MayFollow(words: seq<u16>, c: u16)
  {
    |words| >= 2 && words[|words| - 2] == c ==> words[|words| - 1] as nat == RUN_MAX
  }

  lemma AddRun(words: seq<u16>, c: u16, run: u16)
    requires Packed(words) && MayFollow(words, c) && run != 0
    ensures Packed(words + [c, run])
    ensures Expand(words + [c, run]) == Expand(words) + Repeat(c, run as nat)
    ensures forall d :: d != c || run as nat == RUN_MAX ==> MayFollow(words + [c, run], d)
  {
    ExpandAppend(words, c, run);
    var more := words + [c, run];
    forall j | 0 <= j < |more| / 2 ensures RunPacked(more, j) {
      if j < |words| / 2 { assert RunPacked(words, j); }
    }
  }

  method EncodeRuns(pixels: seq<Rgb>) returns (words: seq<u16>)
    ensures Expand(words) == Colours(pixels)
    ensures Packed(words)
  {
    hide ColourOf, Packed, Expand, MayFollow;
    words := [];
    var run: u16 := 0;
    var prev: u16 := 0;
    ghost var colours := Colours(pixels);
    NoWords();
    for i := 0 to |pixels|
      invariant Packed(words) && MayFollow(words, prev) && (run == 0 ==> i == 0 && words == [])
      invariant Expand(words) + Repeat(prev, run as nat) == colours[..i]
    {
      var color := ColourOf(pixels[i]);
      assert colours[..i + 1] == colours[..i] + [color];
      if run != 0 && color == prev && run < 65535 {
        assert Repeat(prev, run as nat + 1) == Repeat(prev, run as nat) + [color];
        run := run + 1;
        continue;
      }
      if run != 0 {
        AddRun(words, prev, run);
        words := words + [prev, run];
      } else {
        NoWords();
      }
      prev := color;
      run := 1;
      assert Repeat(prev, 1) == [color];
    }
    assert colours[..|pixels|] == colours;
    if run != 0 {
      AddRun(words, prev, run);
      words := words + [prev, run];
    }
  }

  lemma NoWords()
    ensures Expand([]) == [] && Packed([]) && forall c :: MayFollow([], c)
  {
  }

  // ---------------------------------------------------------------- addresses

  datatype Geometry = Geometry(x0: nat, y0: nat, stride: nat, cells: nat)

  // The logo lies inside the surface.
  ghost predicate Room(g: Geometry)
  {
    g.x0 + WIDTH <= g.stride && Area(g.y0 + HEIGHT, g.stride) <= g.cells
  }

  function Area(rows: nat, stride: nat): nat { rows * stride }

  function Address(g: Geometry, pos: nat): nat
  {
    Area(g.y0 + pos / WIDTH, g.stride) + g.x0 + pos % WIDTH
  }

  lemma AreaGrows(a: nat, b: nat, stride: nat)
    requires a < b
    ensures Area(a, stride) + stride <= Area(b, stride)
  {
    var more := b - a - 1;
    assert b * stride == a * stride + stride + more * stride;
  }

  lemma AddressInside(g: Geometry, pos: nat)
    requires Room(g) && pos < LOGO_PIXELS
    ensures Address(g, pos) < g.cells
  {
    AreaGrows(g.y0 + pos / WIDTH, g.y0 + HEIGHT, g.stride);
  }

  // No two logo pixels share a cell.
  lemma AddressesDiffer(g: Geometry, p: nat, q: nat)
    requires Room(g) && p != q
    ensures Address(g, p) != Address(g, q)
  {
    hide Area;
    if p / WIDTH < q / WIDTH { AreaGrows(g.y0 + p / WIDTH, g.y0 + q / WIDTH, g.stride); }
    else if q / WIDTH < p / WIDTH { AreaGrows(g.y0 + q / WIDTH, g.y0 + p / WIDTH, g.stride); }
  }

  // Within a row, addresses are consecutive.
  lemma AddressInRow(g: Geometry, pos: nat, k: nat)
    requires pos % WIDTH + k < WIDTH
    ensures Address(g, pos + k) == Address(g, pos) + k
  {
    assert (pos + k) / WIDTH == pos / WIDTH;
  }

  // ---------------------------------------------------------------- what a blit leaves

  // The first n logo pixels hold the image and every other cell is as it was.
  ghost predicate Painted(now: seq<u16>, was: seq<u16>, image: seq<u16>, n: nat, g: Geometry)
  {
    && |now| == |was| == g.cells && n <= |image|
    && (forall p :: 0 <= p < n ==> Address(g, p) < g.cells && now[Address(g, p)] == image[p])
    && (forall i :: 0 <= i < g.cells && !Covered(g, n, i) ==> now[i] == was[i])
  }

  ghost predicate Covered(g: Geometry, n: nat, i: nat)
  {
    exists p :: 0 <= p < n && Address(g, p) == i
  }

  lemma NotInRun(g: Geometry, pos: nat, run: nat, p: nat)
    requires Room(g) && p < pos && pos % WIDTH + run <= WIDTH
    ensures !(Address(g, pos) <= Address(g, p) < Address(g, pos) + run)
  {
    hide Address;
    var k := Address(g, p) - Address(g, pos);
    if 0 <= k < run {
      AddressInRow(g, pos, k);
      AddressesDiffer(g, p, pos + k);
    }
  }

  lemma RunIsPainted(before: seq<u16>, now: seq<u16>, was: seq<u16>, image: seq<u16>, pos: nat, run: nat, color: u16, g: Geometry)
    requires Room(g) && Painted(before, was, image, pos, g)
    requires pos + run <= |image| && pos + run <= LOGO_PIXELS && pos % WIDTH + run <= WIDTH
    requires |now| == |before| && Address(g, pos) + run <= g.cells
    requires forall i :: 0 <= i < |now| && !(Address(g, pos) <= i < Address(g, pos) + run) ==> now[i] == before[i]
    requires forall i :: Address(g, pos) <= i < Address(g, pos) + run ==> now[i] == color
    requires forall p :: pos <= p < pos + run ==> image[p] == color
    ensures Painted(now, was, image, pos + run, g)
  {
    hide Address;
    forall p | 0 <= p < pos + run
      ensures Address(g, p) < g.cells && now[Address(g, p)] == image[p]
    {
      AddressInside(g, p);
      if p < pos {
        NotInRun(g, pos, run, p);
      } else {
        var k := p - pos;
        AddressInRow(g, pos, k);
      }
    }
    forall i | 0 <= i < g.cells && !Covered(g, pos + run, i) ensures now[i] == was[i] {
      CoveredByRun(g, pos, run, i);
    }
  }

  lemma CoveredByRun(g: Geometry, pos: nat, run: nat, i: nat)
    requires pos % WIDTH + run <= WIDTH
    ensures Covered(g, pos, i) ==> Covered(g, pos + run, i)
    ensures Address(g, pos) <= i < Address(g, pos) + run ==> Covered(g, pos + run, i)
  {
    hide Address;
    if Address(g, pos) <= i < Address(g, pos) + run {
      var k := i - Address(g, pos);
      AddressInRow(g, pos, k);
      assert Address(g, pos + k) == i;
    }
  }

  // Colours a run of cells; written records the cells stored to, in order.
  method FillRgb565(a: array<u16>, at: nat, count: nat, color: u16) returns (ghost written: seq<nat>)
    requires at + count <= a.Length
    modifies a
    ensures forall i :: 0 <= i < a.Length ==> a[i] == if at <= i < at + count then color else old(a[i])
    ensures |written| == count && forall k :: 0 <= k < count ==> written[k] == at + k
  {
    var left: nat := count;
    var dst: nat := at;
    written := [];
    while left != 0
      invariant left <= count && dst == at + (count - left)
      invariant forall i :: 0 <= i < a.Length ==> a[i] == if at <= i < dst then color else old(a[i])
      invariant |written| == count - left && forall k :: 0 <= k < |written| ==> written[k] == at + k
    {
      a[dst] := color;
      written := written + [dst];
      dst := dst + 1;
      left := left - 1;
    }
  }

  // The cells of the first logo pixels, in order.
  ghost predicate AddressesOf(written: seq<nat>, g: Geometry, pixels: nat)
  {
    |written| == pixels && forall p :: 0 <= p < pixels ==> written[p] == Address(g, p)
  }

  lemma RunIsWritten(written: seq<nat>, run: seq<nat>, g: Geometry, pos: nat)
    requires AddressesOf(written, g, pos) && pos % WIDTH + |run| <= WIDTH
    requires forall k :: 0 <= k < |run| ==> run[k] == Address(g, pos) + k
    ensures AddressesOf(written + run, g, pos + |run|)
  {
    hide Address;
    forall p | 0 <= p < pos + |run| ensures (written + run)[p] == Address(g, p) {
      if p >= pos { AddressInRow(g, pos, p - pos); }
    }
  }

  // Each pixel has its own cell.
  lemma WrittenOnce(written: seq<nat>, g: Geometry, pixels: nat)
    requires Room(g) && AddressesOf(written, g, pixels)
    ensures forall p, q :: 0 <= p < q < |written| ==> written[p] != written[q]
  {
    hide Address, Room;
    forall p, q | 0 <= p < q < |written| ensures written[p] != written[q] { AddressesDiffer(g, p, q); }
  }

  // Draws as much of the words as the logo has pixels; written records the cells stored to, in
  // order: every pixel drawn is stored to its own cell exactly once.
  method BlitLogoRle(a: array<u16>, words: seq<u16>, g: Geometry) returns (ghost drawn: nat, ghost written: seq<nat>)
    requires Room(g) && g.cells == a.Length
    modifies a
    ensures drawn == if |Expand(words)| < LOGO_PIXELS then |Expand(words)| else LOGO_PIXELS
    ensures Painted(a[..], old(a[..]), Expand(words), drawn, g)
    ensures AddressesOf(written, g, drawn)
    ensures forall p, q :: 0 <= p < q < drawn ==> written[p] != written[q]
  {
    hide Painted, Address, Room, Repeat, AddressesOf;
    ghost var image, was := Expand(words), a[..];
    var pos: nat := 0;
    written := [];
    NothingPainted(was, image, g);
    var i: nat := 0;
    while i + 1 < |words|
      invariant i <= |words| && pos <= |image| && pos <= LOGO_PIXELS
      invariant pos < LOGO_PIXELS ==> image[pos..] == Expand(words[i..])
      invariant Painted(a[..], was, image, pos, g) && AddressesOf(written, g, pos)
    {
      var color := words[i];
      var count: nat := words[i + 1];
      assert words[i..][2..] == words[i + 2..];
      while count != 0 && pos < LOGO_PIXELS
        invariant pos <= |image| && pos <= LOGO_PIXELS
        invariant pos < LOGO_PIXELS ==> image[pos..] == Repeat(color, count) + Expand(words[i + 2..])
        invariant Painted(a[..], was, image, pos, g) && AddressesOf(written, g, pos)
      {
        var x, y := pos % WIDTH, pos / WIDTH;
        var run: int := WIDTH - x;
        if run > count { run := count; }
        if run > LOGO_PIXELS - pos { run := LOGO_PIXELS - pos; }
        var dst := Area(g.y0 + y, g.stride) + g.x0 + x;
        ghost var before := a[..];
        RunFits(g, pos, run);
        ColoursAhead(image, pos, color, count, run, Expand(words[i + 2..]));
        ghost var stored := FillRgb565(a, dst, run, color);
        RunIsPainted(before, a[..], was, image, pos, run, color, g);
        RunIsWritten(written, stored, g, pos);
        written := written + stored;
        pos := pos + run;
        count := count - run;
      }
      if pos < LOGO_PIXELS {
        NoRepeat(color);
        assert [] + Expand(words[i + 2..]) == Expand(words[i + 2..]);
      }
      i := i + 2;
    }
    drawn := pos;
    if pos < LOGO_PIXELS { assert image[pos..] == []; }
    WrittenOnce(written, g, drawn);
    assert |written| == drawn by { WrittenCount(written, g, drawn); }
  }

  lemma WrittenCount(written: seq<nat>, g: Geometry, pixels: nat)
    requires AddressesOf(written, g, pixels)
    ensures |written| == pixels
  {
  }

  lemma NoRepeat(c: u16)
    ensures Repeat(c, 0) == []
  {
  }

  lemma NothingPainted(was: seq<u16>, image: seq<u16>, g: Geometry)
    requires |was| == g.cells
    ensures Painted(was, was, image, 0, g) && AddressesOf([], g, 0)
  {
  }

  lemma RunFits(g: Geometry, pos: nat, run: nat)
    requires Room(g) && 0 < run && pos + run <= LOGO_PIXELS && pos % WIDTH + run <= WIDTH
    ensures Address(g, pos) == Area(g.y0 + pos / WIDTH, g.stride) + g.x0 + pos % WIDTH
    ensures Address(g, pos) + run <= g.cells
  {
    AddressInRow(g, pos, run - 1);
    AddressInside(g, pos + run - 1);
  }

  lemma ColoursAhead(image: seq<u16>, pos: nat, color: u16, count: nat, run: nat, rest: seq<u16>)
    requires pos <= |image| && run <= count && image[pos..] == Repeat(color, count) + rest
    ensures pos + run <= |image|
    ensures forall p :: pos <= p < pos + run ==> image[p] == color
    ensures image[pos + run..] == Repeat(color, count - run) + rest
  {
    forall p | pos <= p < pos + run ensures image[p] == color { assert image[pos..][p - pos] == color; }
    assert image[pos + run..] == image[pos..][run..];
  }

  // ---------------------------------------------------------------- the logo on the screen

  lemma RoomInMiddle(g: Geometry, height: nat)
    requires g.x0 + WIDTH <= g.stride && g.y0 + HEIGHT <= height && Area(height, g.stride) <= g.cells
    ensures Room(g)
  {
    if g.y0 + HEIGHT < height { AreaGrows(g.y0 + HEIGHT, height, g.stride); }
  }

  function LogoCell(g: Geometry, x: nat, y: nat): nat { Area(g.y0 + y, g.stride) + g.x0 + x }

  // The cell of a logo pixel, by row and column.
  lemma PixelAddress(g: Geometry, x: nat, y: nat)
    requires x < WIDTH && y < HEIGHT
    ensures y * WIDTH + x < LOGO_PIXELS
    ensures Address(g, y * WIDTH + x) == LogoCell(g, x, y)
  {
    assert (y * WIDTH + x) / WIDTH == y && (y * WIDTH + x) % WIDTH == x;
  }

  // Packing an image and drawing the words shows every pixel's colour at its row and column of
  // the centred logo, and leaves every cell outside the logo as it was.
  method ShowLogo(a: array<u16>, width: nat, height: nat, stride: nat, pixels: seq<Rgb>) returns (ok: bool)
    requires |pixels| == LOGO_PIXELS && width <= stride && Area(height, stride) <= a.Length
    modifies a
    ensures ok == (WIDTH <= width && HEIGHT <= height)
    ensures !ok ==> a[..] == old(a[..])
    ensures ok ==>
              var g := Geometry((width - WIDTH) / 2, (height - HEIGHT) / 2, stride, a.Length);
              && (forall x: nat, y: nat :: x < WIDTH && y < HEIGHT ==>
                    ShownAt(a[..], LogoCell(g, x, y), pixels, y * WIDTH + x))
              && (forall i :: 0 <= i < a.Length && !Covered(g, LOGO_PIXELS, i) ==> a[i] == old(a[i]))
  {
    hide Address, Room, Area, Expand, Colours, LogoCell;
    ok := false;
    if width < WIDTH || height < HEIGHT { return; }
    ok := true;
    var g := Geometry((width - WIDTH) / 2, (height - HEIGHT) / 2, stride, a.Length);
    RoomInMiddle(g, height);
    var words := EncodeRuns(pixels);
    ghost var drawn, written := BlitLogoRle(a, words, g);
    forall x: nat, y: nat | x < WIDTH && y < HEIGHT
      ensures ShownAt(a[..], LogoCell(g, x, y), pixels, y * WIDTH + x)
    {
      PixelAddress(g, x, y);
      ColourAt(pixels, y * WIDTH + x);
    }
  }

  ghost predicate ShownAt(cells: seq<u16>, at: int, pixels: seq<Rgb>, p: int)
  {
    0 <= at < |cells| && 0 <= p < |pixels| && cells[at] == ColourOf(pixels[p])
  }

  lemma ColourAt(pixels: seq<Rgb>, p: nat)
    requires p < |pixels|
    ensures Colours(pixels)[p] == ColourOf(pixels[p])
  {
  }
}
