// The video presenter: a core's frame is scaled into the next framebuffer and that buffer is then
// panned to. A bit mask remembers which buffers have been cleared for the current rectangle.
//
// The graphics engine's work is immediate and may fail: a failed fill leaves anything in its
// buffer, a failed blit or stretch anything inside its rectangle. What the engine produces comes
// in with each frame.

module Presenter {

  const WORD: nat := 0x1_0000_0000
  const INT_LIMIT: nat := 0x8000_0000
  const BLACK: int := 0xff00_0000

  type Picture = (nat, nat) -> int

  datatype Rect = Rect(x: int, y: int, w: int, h: int)

  function KeepAspect(flags: nat): bool { flags / 2 % 2 == 1 }

  function KeepSize(flags: nat): bool { flags / 4 % 2 == 1 }

  // ---------------------------------------------------------------- geometry

  // Half the difference of two 32-bit numbers; the subtraction wraps.
  function HalfGap(outer: nat, inner: nat): nat { (outer - inner) % WORD / 2 }

  function AtLeastOne(n: nat): nat { if n == 0 then 1 else n }

  function Area(a: nat, b: nat): nat { a * b }

  // The part of a length that stands in the proportion of two others, in 64-bit arithmetic.
  function Share(length: nat, part: nat, whole: nat): nat
    requires whole != 0
  {
    Area(length, part) / whole
  }

  function ScaledSize(srcW: nat, srcH: nat, dstW: nat, dstH: nat, flags: nat): (nat, nat)
  {
    if KeepSize(flags) && srcW != 0 && srcH != 0 then
      (if srcW <= dstW then srcW else dstW, if srcH <= dstH then srcH else dstH)
    else if KeepAspect(flags) && srcW != 0 && srcH != 0 then
      if Area(dstW, srcH) > Area(dstH, srcW) then (AtLeastOne(Share(dstH, srcW, srcH)), AtLeastOne(dstH))
      else (AtLeastOne(dstW), AtLeastOne(Share(dstW, srcH, srcW)))
    else (dstW, dstH)
  }

  function Scaled(srcW: nat, srcH: nat, dstW: nat, dstH: nat, flags: nat): Rect
  {
    var size := ScaledSize(srcW, srcH, dstW, dstH, flags);
    Rect(HalfGap(dstW, size.0), HalfGap(dstH, size.1), size.0, size.1)
  }

  ghost predicate Inside(r: Rect, width: nat, height: nat)
  {
    0 <= r.x && 0 <= r.y && 0 <= r.w && 0 <= r.h && r.x + r.w <= width && r.y + r.h <= height
  }

  // The aspect-preserving branch is the one taken.
  ghost predicate FitsAspect(srcW: nat, srcH: nat, flags: nat)
  {
    KeepAspect(flags) && !KeepSize(flags) && srcW != 0 && srcH != 0
  }

  lemma ShareBounds(length: nat, part: nat, whole: nat, limit: nat)
    requires 0 < whole && Area(length, part) <= Area(limit, whole)
    ensures Share(length, part, whole) <= limit
    ensures Area(Share(length, part, whole), whole) <= Area(length, part)
            < Area(Share(length, part, whole) + 1, whole)
  {
    var q := Share(length, part, whole);
    if q > limit { AreaGrows(limit + 1, q, whole); }
  }

  lemma AreaGrows(a: nat, b: nat, d: nat)
    requires a <= b
    ensures Area(a, d) <= Area(b, d)
    ensures a > 0 ==> Area(a, d) == Area(a - 1, d) + d
  {
  }

  lemma NoArea(d: nat)
    ensures Area(0, d) == 0 && Area(1, d) == d
  {
  }

  lemma SizeBounds(srcW: nat, srcH: nat, dstW: nat, dstH: nat, flags: nat)
    ensures var s := ScaledSize(srcW, srcH, dstW, dstH, flags);
            && (dstW > 0 && dstH > 0 ==> s.0 <= dstW && s.1 <= dstH)
            && (!FitsAspect(srcW, srcH, flags) ==> s.0 <= dstW && s.1 <= dstH)
            && (FitsAspect(srcW, srcH, flags) && (dstW == 0 || dstH == 0) ==> s.0 > dstW || s.1 > dstH)
  {
    hide Area, Share;
    if FitsAspect(srcW, srcH, flags) {
      NoArea(srcH); NoArea(srcW);
      if Area(dstW, srcH) > Area(dstH, srcW) { ShareBounds(dstH, srcW, srcH, dstW); }
      else { ShareBounds(dstW, srcH, srcW, dstH); }
    }
  }

  // The rectangle lies inside the framebuffer, centred to within a pixel, in all cases but one:
  // an aspect fit into a framebuffer without pixels is rounded up to one pixel.
  lemma ScaledInsideIff(srcW: nat, srcH: nat, dstW: nat, dstH: nat, flags: nat)
    requires dstW < INT_LIMIT && dstH < INT_LIMIT
    ensures var r := Scaled(srcW, srcH, dstW, dstH, flags);
            && (Inside(r, dstW, dstH) <==> !(FitsAspect(srcW, srcH, flags) && (dstW == 0 || dstH == 0)))
            && (Inside(r, dstW, dstH) ==> 0 <= dstW - r.w - 2 * r.x <= 1 && 0 <= dstH - r.h - 2 * r.y <= 1)
  {
    SizeBounds(srcW, srcH, dstW, dstH, flags);
  }

  // An aspect fit touches two opposite edges and its other side is the exact proportional length,
  // rounded down but never to nothing.
  lemma AspectIsKept(srcW: nat, srcH: nat, dstW: nat, dstH: nat, flags: nat)
    requires 0 < dstW && 0 < dstH && FitsAspect(srcW, srcH, flags)
    ensures var s := ScaledSize(srcW, srcH, dstW, dstH, flags);
            || (s.1 == dstH && Area(s.0, srcH) <= Area(dstH, srcW) + (if s.0 == 1 then srcH else 0)
                && Area(dstH, srcW) < Area(s.0 + 1, srcH))
            || (s.0 == dstW && Area(s.1, srcW) <= Area(dstW, srcH) + (if s.1 == 1 then srcW else 0)
                && Area(dstW, srcH) < Area(s.1 + 1, srcW))
  {
    hide Area, Share;
    NoArea(srcH); NoArea(srcW);
    AreaGrows(2, 2, srcH); AreaGrows(2, 2, srcW);
    if Area(dstW, srcH) > Area(dstH, srcW) {
      ShareBounds(dstH, srcW, srcH, dstW);
    } else {
      ShareBounds(dstW, srcH, srcW, dstH);
    }
  }

  // With the size kept, each side is the frame's or, when that does not fit, the framebuffer's; with
  // neither flag, and for a frame without pixels, the whole framebuffer is filled.
  lemma SizeIsKept(srcW: nat, srcH: nat, dstW: nat, dstH: nat, flags: nat)
    ensures var s := ScaledSize(srcW, srcH, dstW, dstH, flags);
            && (KeepSize(flags) && srcW != 0 && srcH != 0 ==>
                  && s.0 <= srcW && s.0 <= dstW && (s.0 == srcW || s.0 == dstW)
                  && s.1 <= srcH && s.1 <= dstH && (s.1 == srcH || s.1 == dstH))
            && ((!KeepSize(flags) && !KeepAspect(flags)) || srcW == 0 || srcH == 0 ==> s == (dstW, dstH))
  {
    hide Area, Share;
  }

  // ---------------------------------------------------------------- the presenter's steps

  datatype Config = Config(width: nat, height: nat, flags: nat, buffers: nat)

  datatype State = State(active: nat, visible: nat, screens: seq<Picture>, lastDst: Rect,
                         lastSrcW: nat, lastSrcH: nat, lastFbW: nat, lastFbH: nat, lastFlags: nat,
                         cleared: set<nat>, blits: nat, stretches: nat)

  // A frame to present and what the hardware makes of it: stretch gives, for each rectangle, the
  // picture the engine scales the frame to.
  datatype Frame = Frame(usable: bool, width: nat, height: nat, source: Picture,
                         fillOk: bool, fillLeft: Picture,
                         drawOk: bool, drawLeft: Picture, stretch: Rect -> Picture,
                         syncOk: bool, panOk: bool)

  function AllOf(colour: int): Picture { (x: nat, y: nat) => colour }

  predicate InRect(r: Rect, x: nat, y: nat) { r.x <= x < r.x + r.w && r.y <= y < r.y + r.h }

  // A source placed at a rectangle's corner; only used inside the rectangle.
  function Placed(source: Picture, r: Rect): Picture
  {
    (x: nat, y: nat) => if r.x <= x && r.y <= y then source(x - r.x, y - r.y) else 0
  }

  function Painted(under: Picture, r: Rect, image: Picture): Picture
  {
    (x: nat, y: nat) => if InRect(r, x, y) then image(x, y) else under(x, y)
  }

  function NextBuffer(c: Config, s: State): nat
  {
    if c.buffers > 1 then (s.active + 1) % c.buffers else s.active
  }

  predicate CacheHit(c: Config, s: State, width: nat, height: nat)
  {
    && s.lastSrcW == width && s.lastSrcH == height
    && s.lastFbW == c.width && s.lastFbH == c.height
    && s.lastFlags == c.flags
    && s.lastDst.w > 0 && s.lastDst.h > 0
  }

  function DstRect(c: Config, s: State, width: nat, height: nat): (Rect, State)
  {
    if CacheHit(c, s, width, height) then (s.lastDst, s)
    else
      (Scaled(width, height, c.width, c.height, c.flags),
       s.(lastSrcW := width, lastSrcH := height, lastFbW := c.width, lastFbH := c.height, lastFlags := c.flags))
  }

  // The rectangle to draw to is settled; a new rectangle forgets every clear.
  function Aim(c: Config, s: State, f: Frame): State
  {
    var d := DstRect(c, s, f.width, f.height);
    if d.0 != d.1.lastDst then d.1.(lastDst := d.0, cleared := {}) else d.1
  }

  predicate NeedsClear(c: Config, s: State, next: nat)
  {
    (s.lastDst.w != c.width || s.lastDst.h != c.height) && next !in s.cleared
  }

  function Drawn(f: Frame, r: Rect): Picture
  {
    if !f.drawOk then f.drawLeft
    else if f.width == r.w && f.height == r.h then Placed(f.source, r)
    else f.stretch(r)
  }

  function Draw(s: State, f: Frame, next: nat): State
    requires next < |s.screens|
  {
    var s := s.(screens := s.screens[next := Painted(s.screens[next], s.lastDst, Drawn(f, s.lastDst))]);
    if !f.drawOk then s
    else if f.width == s.lastDst.w && f.height == s.lastDst.h then s.(blits := s.blits + 1)
    else s.(stretches := s.stretches + 1)
  }

  // A buffer that has not been cleared for this rectangle is filled with black first.
  function Prepare(c: Config, s: State, f: Frame, next: nat): (State, bool)
    requires next < |s.screens|
  {
    if !NeedsClear(c, s, next) then (s, true)
    else if !f.fillOk then (s.(screens := s.screens[next := f.fillLeft]), false)
    else (s.(screens := s.screens[next := AllOf(BLACK)], cleared := s.cleared + {next}), true)
  }

  function Present(c: Config, s: State, f: Frame): (State, bool)
    requires s.active < c.buffers == |s.screens|
  {
    if !f.usable || f.width == 0 || f.height == 0 then (s, false)
    else
      var next := NextBuffer(c, s);
      var t := Aim(c, s, f);
      var prepared := Prepare(c, t, f, next);
      if !prepared.1 then (prepared.0, false)
      else
        var t := Draw(prepared.0, f, next);
        if f.drawOk && f.syncOk && f.panOk then (t.(active := next, visible := next), true)
        else (t, false)
  }

  // ---------------------------------------------------------------- letterbox safety

  // Every pixel of the framebuffer outside the rectangle is black.
  ghost predicate Bordered(c: Config, r: Rect, p: Picture)
  {
    forall x: nat, y: nat :: x < c.width && y < c.height && !InRect(r, x, y) ==> p(x, y) == BLACK
  }

  ghost predicate CacheSound(s: State)
  {
    s.lastDst.w > 0 && s.lastDst.h > 0 ==>
      s.lastDst == Scaled(s.lastSrcW, s.lastSrcH, s.lastFbW, s.lastFbH, s.lastFlags)
  }

  ghost predicate Sound(c: Config, s: State)
  {
    && c.width < INT_LIMIT && c.height < INT_LIMIT
    && s.active == s.visible < c.buffers == |s.screens|
    && CacheSound(s)
    && forall b :: b in s.cleared ==> b < c.buffers && Bordered(c, s.lastDst, s.screens[b])
  }

  // The cached rectangle is always the one a fresh computation would give.
  lemma CacheIsFresh(c: Config, s: State, f: Frame)
    requires CacheSound(s)
    ensures Aim(c, s, f).lastDst == Scaled(f.width, f.height, c.width, c.height, c.flags)
    ensures CacheSound(Aim(c, s, f))
  {
    hide Scaled;
  }

  lemma AimKeeps(c: Config, s: State, f: Frame)
    requires Sound(c, s)
    ensures Sound(c, Aim(c, s, f))
    ensures Aim(c, s, f).screens == s.screens && Aim(c, s, f).active == s.active
  {
    hide Scaled, Bordered;
    CacheIsFresh(c, s, f);
  }

  lemma PaintKeepsBorders(c: Config, r: Rect, under: Picture, image: Picture)
    requires Bordered(c, r, under)
    ensures Bordered(c, r, Painted(under, r, image))
  {
  }

  lemma BlackIsBordered(c: Config, r: Rect)
    ensures Bordered(c, r, AllOf(BLACK))
  {
  }

  // A rectangle as large as the framebuffer leaves no border.
  lemma FullIsBordered(c: Config, r: Rect, p: Picture)
    requires Inside(r, c.width, c.height) && r.w == c.width && r.h == c.height
    ensures Bordered(c, r, p)
  {
  }

  lemma NextIsHidden(c: Config, s: State)
    requires s.active < c.buffers
    ensures NextBuffer(c, s) < c.buffers
    ensures c.buffers > 1 ==> NextBuffer(c, s) != s.active
  {
    if s.active + 1 < c.buffers {
      assert (s.active + 1) % c.buffers == s.active + 1;
    }
  }

  // Every present, whatever fails in it, keeps a set bit truthful; with two or more buffers it
  // does not touch the visible one.
  lemma PresentKeeps(c: Config, s: State, f: Frame)
    requires Sound(c, s)
    ensures Sound(c, Present(c, s, f).0)
    ensures c.buffers > 1 ==> Present(c, s, f).0.screens[s.visible] == s.screens[s.visible]
  {
    hide Scaled, Bordered, Aim, NextBuffer, CacheSound, Painted, AllOf, Drawn;
    AimKeeps(c, s, f);
    NextIsHidden(c, s);
    var t, next := Aim(c, s, f), NextBuffer(c, s);
    BlackIsBordered(c, t.lastDst);
    if f.usable && f.width != 0 && f.height != 0 && !(NeedsClear(c, t, next) && !f.fillOk) {
      var under := if NeedsClear(c, t, next) then AllOf(BLACK) else t.screens[next];
      if next in t.cleared || NeedsClear(c, t, next) {
        PaintKeepsBorders(c, t.lastDst, under, Drawn(f, t.lastDst));
      }
      CacheIgnores(t, Present(c, s, f).0);
    } else {
      CacheIgnores(t, Present(c, s, f).0);
    }
  }

  lemma SoundBuffers(c: Config, s: State)
    requires Sound(c, s)
    ensures s.active < c.buffers == |s.screens| && NextBuffer(c, s) < c.buffers
    ensures forall f :: |Aim(c, s, f).screens| == |s.screens| && Aim(c, s, f).active == s.active
  {
    NextIsHidden(c, s);
  }

  lemma CacheIgnores(s: State, t: State)
    ensures s.lastDst == t.lastDst && s.lastSrcW == t.lastSrcW && s.lastSrcH == t.lastSrcH &&
            s.lastFbW == t.lastFbW && s.lastFbH == t.lastFbH && s.lastFlags == t.lastFlags ==>
              (CacheSound(s) <==> CacheSound(t))
  {
  }

  // Every pixel of the rectangle is the frame's: the source moved to the corner when the sizes are
  // equal, otherwise what the engine scaled it to.
  ghost predicate Pictured(f: Frame, r: Rect, p: Picture)
  {
    forall x: nat, y: nat :: InRect(r, x, y) ==>
      p(x, y) == if r.w == f.width && r.h == f.height then SourceAt(f, r, x, y) else f.stretch(r)(x, y)
  }

  // The source pixel that a pixel of an unscaled frame's rectangle shows.
  function SourceAt(f: Frame, r: Rect, x: nat, y: nat): int
  {
    if r.x <= x && r.y <= y then f.source(x - r.x, y - r.y) else 0
  }

  lemma PaintIsPictured(f: Frame, r: Rect, under: Picture)
    requires f.drawOk
    ensures Pictured(f, r, Painted(under, r, Drawn(f, r)))
  {
    hide Painted, Drawn, SourceAt, InRect;
    forall x: nat, y: nat | InRect(r, x, y)
      ensures Painted(under, r, Drawn(f, r))(x, y) ==
              if r.w == f.width && r.h == f.height then SourceAt(f, r, x, y) else f.stretch(r)(x, y)
    {
      PaintedInside(under, r, Drawn(f, r), x, y);
      DrawnInside(f, r, x, y);
    }
  }

  lemma PaintedInside(under: Picture, r: Rect, image: Picture, x: nat, y: nat)
    requires InRect(r, x, y)
    ensures Painted(under, r, image)(x, y) == image(x, y)
  {
  }

  lemma DrawnInside(f: Frame, r: Rect, x: nat, y: nat)
    requires f.drawOk
    ensures Drawn(f, r)(x, y) ==
            if r.w == f.width && r.h == f.height then SourceAt(f, r, x, y) else f.stretch(r)(x, y)
  {
  }

  // A present that reports success shows a buffer that is black outside a freshly computed
  // rectangle inside the framebuffer and holds the frame, scaled or not, in every pixel of it.
  lemma SuccessIsLetterboxed(c: Config, s: State, f: Frame)
    requires Sound(c, s) && 0 < c.width && 0 < c.height && Present(c, s, f).1
    ensures var t, r := Present(c, s, f).0, Scaled(f.width, f.height, c.width, c.height, c.flags);
            && Inside(r, c.width, c.height) && t.lastDst == r
            && t.visible == NextBuffer(c, s) < |t.screens|
            && Bordered(c, r, t.screens[t.visible]) && Pictured(f, r, t.screens[t.visible])
            && (r.w == f.width && r.h == f.height ==>
                  forall x: nat, y: nat :: x < f.width && y < f.height ==>
                    t.screens[t.visible](r.x + x, r.y + y) == f.source(x, y))
  {
    hide Scaled, Bordered, Pictured;
    var r := Scaled(f.width, f.height, c.width, c.height, c.flags);
    AimKeeps(c, s, f);
    NextIsHidden(c, s);
    CacheIsFresh(c, s, f);
    ScaledInsideIff(f.width, f.height, c.width, c.height, c.flags);
    ShownBuffer(c, s, f, r);
  }

  lemma ShownBuffer(c: Config, s: State, f: Frame, r: Rect)
    requires Sound(c, s) && Present(c, s, f).1 && NextBuffer(c, s) < c.buffers
    requires Aim(c, s, f).lastDst == r && Inside(r, c.width, c.height) && Sound(c, Aim(c, s, f))
    ensures var t := Present(c, s, f).0;
            && t.visible == NextBuffer(c, s) < |t.screens| && t.lastDst == r
            && Bordered(c, r, t.screens[t.visible]) && Pictured(f, r, t.screens[t.visible])
            && (r.w == f.width && r.h == f.height ==>
                  forall x: nat, y: nat :: x < f.width && y < f.height ==>
                    t.screens[t.visible](r.x + x, r.y + y) == f.source(x, y))
  {
    hide Scaled, Aim, NextBuffer, CacheSound, Pictured, Painted, Drawn, Present, Bordered;
    var under := ShownIsPainted(c, s, f, r);
    PaintKeepsBorders(c, r, under, Drawn(f, r));
    PaintIsPictured(f, r, under);
    if r.w == f.width && r.h == f.height { UnscaledIsSource(c, f, r, Painted(under, r, Drawn(f, r))); }
  }

  // What a present shows is painted over a buffer with black borders.
  lemma ShownIsPainted(c: Config, s: State, f: Frame, r: Rect) returns (under: Picture)
    requires Sound(c, s) && Present(c, s, f).1 && NextBuffer(c, s) < c.buffers
    requires Aim(c, s, f).lastDst == r && Inside(r, c.width, c.height) && Sound(c, Aim(c, s, f))
    ensures Bordered(c, r, under) && f.drawOk
    ensures var t := Present(c, s, f).0;
            && t.visible == NextBuffer(c, s) < |t.screens| && t.lastDst == r
            && t.screens[t.visible] == Painted(under, r, Drawn(f, r))
  {
    hide Scaled, Aim, NextBuffer, CacheSound, Painted, Drawn, AllOf;
    var t, next := Aim(c, s, f), NextBuffer(c, s);
    under := if NeedsClear(c, t, next) then AllOf(BLACK) else t.screens[next];
    BlackIsBordered(c, r);
    if r.w == c.width && r.h == c.height { FullIsBordered(c, r, under); }
  }

  lemma UnscaledIsSource(c: Config, f: Frame, r: Rect, p: Picture)
    requires Pictured(f, r, p) && Inside(r, c.width, c.height) && r.w == f.width && r.h == f.height
    ensures forall x: nat, y: nat :: x < f.width && y < f.height ==> p(r.x + x, r.y + y) == f.source(x, y)
  {
    hide Pictured, SourceAt;
    forall x: nat, y: nat | x < f.width && y < f.height ensures p(r.x + x, r.y + y) == f.source(x, y) {
      PicturedAt(f, r, p, r.x + x, r.y + y);
      SourceBack(f, r, r.x + x, r.y + y, x, y);
    }
  }

  lemma PicturedAt(f: Frame, r: Rect, p: Picture, u: nat, v: nat)
    requires Pictured(f, r, p) && InRect(r, u, v) && r.w == f.width && r.h == f.height
    ensures p(u, v) == SourceAt(f, r, u, v)
  {
    hide SourceAt;
  }

  lemma SourceBack(f: Frame, r: Rect, u: nat, v: nat, x: nat, y: nat)
    requires u == r.x + x && v == r.y + y && r.x >= 0 && r.y >= 0
    ensures SourceAt(f, r, u, v) == f.source(x, y)
  {
    assert u - r.x == x && v - r.y == y;
  }

  // ---------------------------------------------------------------- whole runs

  function Run(c: Config, s: State, frames: seq<Frame>): (t: State)
    requires Sound(c, s)
    ensures Sound(c, t)
  {
    if frames == [] then s
    else
      var before := Run(c, s, frames[..|frames| - 1]);
      PresentKeeps(c, before, frames[|frames| - 1]);
      Present(c, before, frames[|frames| - 1]).0
  }

  predicate Shown(c: Config, s: State, frames: seq<Frame>, i: nat)
    requires Sound(c, s) && i < |frames|
  {
    Present(c, Run(c, s, frames[..i]), frames[i]).1
  }

  // With two or more buffers, what is on the screen at any moment of any run is the picture of the
  // frame shown last, untouched, with black borders around its own rectangle.
  lemma {:induction false} ScreenIsLastShown(c: Config, s: State, frames: seq<Frame>, i: nat)
    requires Sound(c, s) && 0 < c.width && 0 < c.height && c.buffers > 1
    requires i < |frames| && Shown(c, s, frames, i)
    requires forall j :: i < j < |frames| ==> !Shown(c, s, frames, j)
    ensures var t := Run(c, s, frames);
            && t.screens[t.visible] == Run(c, s, frames[..i + 1]).screens[t.visible]
            && t.visible == Run(c, s, frames[..i + 1]).visible
            && var r := Scaled(frames[i].width, frames[i].height, c.width, c.height, c.flags);
               Bordered(c, r, t.screens[t.visible]) && Pictured(frames[i], r, t.screens[t.visible])
    decreases |frames|
  {
    hide Scaled, Bordered, Sound, Present, Pictured;
    var n := |frames| - 1;
    assert frames[..i + 1][..i] == frames[..i];
    if i == n {
      assert frames[..i + 1] == frames;
      SuccessIsLetterboxed(c, Run(c, s, frames[..n]), frames[n]);
    } else {
      forall j | i <= j < n ensures Shown(c, s, frames[..n], j) == Shown(c, s, frames, j) {
        assert frames[..n][..j] == frames[..j];
      }
      ScreenIsLastShown(c, s, frames[..n], i);
      assert frames[..n][..i + 1] == frames[..i + 1];
      assert !Shown(c, s, frames, n);
      FailureKeepsScreen(c, Run(c, s, frames[..n]), frames[n]);
    }
  }

  lemma FailureKeepsScreen(c: Config, s: State, f: Frame)
    requires Sound(c, s) && c.buffers > 1 && !Present(c, s, f).1
    ensures Present(c, s, f).0.visible == s.visible < |s.screens| == |Present(c, s, f).0.screens|
    ensures Present(c, s, f).0.screens[s.visible] == s.screens[s.visible]
  {
    hide Scaled, Bordered, NextBuffer;
    PresentKeeps(c, s, f);
    AimKeeps(c, s, f);
  }

  // ---------------------------------------------------------------- an explicit clear

  // The clear entry point fills the active buffer without looking at the mask.
  function Clear(s: State, colour: int, ok: bool, left: Picture): State
    requires s.active < |s.screens|
  {
    s.(screens := s.screens[s.active := if ok then AllOf(colour) else left])
  }

  // It keeps the mask truthful, whatever a failed fill leaves behind, exactly when the active
  // buffer's bit is unset, the rectangle leaves no border, or the fill succeeds in black.
  lemma ClearKeepsIff(c: Config, s: State, colour: int, ok: bool)
    requires Sound(c, s) && Inside(s.lastDst, c.width, c.height) && 0 < c.width && 0 < c.height
    ensures (forall left: Picture :: Sound(c, Clear(s, colour, ok, left))) <==>
            s.active !in s.cleared || (s.lastDst.w == c.width && s.lastDst.h == c.height) || (ok && colour == BLACK)
  {
    hide Scaled;
    var good := s.active !in s.cleared || (s.lastDst.w == c.width && s.lastDst.h == c.height) || (ok && colour == BLACK);
    if good {
      forall left: Picture ensures Sound(c, Clear(s, colour, ok, left)) {
        CacheIgnores(s, Clear(s, colour, ok, left));
      }
    } else {
      var t := Clear(s, colour, ok, AllOf(BLACK + 1));
      var x, y := BorderPixel(c, s.lastDst);
      assert !ok ==> t.screens[s.active](x, y) != BLACK;
      assert ok ==> t.screens[s.active](x, y) == colour;
      assert !Bordered(c, s.lastDst, t.screens[s.active]);
      assert !Sound(c, t);
    }
  }

  lemma BorderPixel(c: Config, r: Rect) returns (x: nat, y: nat)
    requires Inside(r, c.width, c.height) && 0 < c.width && 0 < c.height
    requires r.w != c.width || r.h != c.height
    ensures x < c.width && y < c.height && !InRect(r, x, y)
  {
    if r.x > 0 || r.y > 0 { x, y := 0, 0; }
    else { x, y := c.width - 1, c.height - 1; }
  }

  // ---------------------------------------------------------------- the object

  // The number of buffers settled on when the presenter is opened.
  function BufferCount(asked: nat, available: nat, accepted: bool): (n: nat)
    ensures 1 <= n
    ensures accepted && 0 < available ==> n <= available
  {
    var n := if asked == 0 then 2 else asked;
    var n := if n > available then available else n;
    var n := if n == 0 then 1 else n;
    if accepted then n else 1
  }

  // Fresh buffers hold whatever memory held.
  function Uncleared(n: nat, junk: Picture): (r: seq<Picture>)
    ensures |r| == n
  {
    if n == 0 then [] else Uncleared(n - 1, junk) + [junk]
  }

  class VideoPresenter {
    const config: Config
    var active: nat
    var visible: nat
    var screens: seq<Picture>
    var lastDst: Rect
    var lastSrcW: nat
    var lastSrcH: nat
    var lastFbW: nat
    var lastFbH: nat
    var lastFlags: nat
    var cleared: set<nat>
    var blits: nat
    var stretches: nat

    ghost function Now(): State
      reads this
    {
      State(active, visible, screens, lastDst, lastSrcW, lastSrcH, lastFbW, lastFbH, lastFlags,
            cleared, blits, stretches)
    }

    ghost predicate Valid()
      reads this
    {
      Sound(config, Now())
    }

    constructor (width: nat, height: nat, flags: nat, asked: nat, available: nat, accepted: bool, junk: Picture)
      requires width < INT_LIMIT && height < INT_LIMIT
      ensures Valid() && cleared == {} && config.buffers == BufferCount(asked, available, accepted)
      ensures config.width == width && config.height == height && config.flags == flags
    {
      var n := BufferCount(asked, available, accepted);
      config := Config(width, height, flags, n);
      active, visible := 0, 0;
      screens := Uncleared(n, junk);
      lastDst := Rect(0, 0, -1, -1);
      lastSrcW, lastSrcH, lastFbW, lastFbH := 0, 0, 0, 0;
      lastFlags := WORD - 1;
      cleared := {};
      blits, stretches := 0, 0;
    }

    method PresenterDstRect(width: nat, height: nat) returns (r: Rect)
      modifies `lastSrcW, `lastSrcH, `lastFbW, `lastFbH, `lastFlags
      ensures (r, Now()) == DstRect(config, old(Now()), width, height)
    {
      if && lastSrcW == width && lastSrcH == height
         && lastFbW == config.width && lastFbH == config.height
         && lastFlags == config.flags && lastDst.w > 0 && lastDst.h > 0 {
        return lastDst;
      }
      r := Scaled(width, height, config.width, config.height, config.flags);
      lastSrcW, lastSrcH := width, height;
      lastFbW, lastFbH := config.width, config.height;
      lastFlags := config.flags;
    }

    method AimAt(f: Frame)
      modifies `lastSrcW, `lastSrcH, `lastFbW, `lastFbH, `lastFlags, `lastDst, `cleared
      ensures Now() == Aim(config, old(Now()), f)
    {
      hide Scaled;
      var r := PresenterDstRect(f.width, f.height);
      if r != lastDst {
        lastDst := r;
        cleared := {};
      }
    }

    method ClearNext(f: Frame, next: nat) returns (ok: bool)
      requires next < |screens|
      modifies `screens, `cleared
      ensures (Now(), ok) == Prepare(config, old(Now()), f, next) && |screens| == |old(screens)|
    {
      ok := true;
      if (lastDst.w != config.width || lastDst.h != config.height) && next !in cleared {
        if !f.fillOk {
          screens := screens[next := f.fillLeft];
          return false;
        }
        screens := screens[next := AllOf(BLACK)];
        cleared := cleared + {next};
      }
    }

    method DrawFrame(f: Frame, next: nat)
      requires next < |screens|
      modifies `screens, `blits, `stretches
      ensures Now() == Draw(old(Now()), f, next)
    {
      hide Painted, Placed;
      if f.width == lastDst.w && f.height == lastDst.h {
        var image := if f.drawOk then Placed(f.source, lastDst) else f.drawLeft;
        screens := screens[next := Painted(screens[next], lastDst, image)];
        if f.drawOk { blits := blits + 1; }
      } else {
        var image := if f.drawOk then f.stretch(lastDst) else f.drawLeft;
        screens := screens[next := Painted(screens[next], lastDst, image)];
        if f.drawOk { stretches := stretches + 1; }
      }
    }

    method PresentFrame(f: Frame) returns (ok: bool)
      requires Valid()
      modifies this
      ensures Valid()
      ensures (Now(), ok) == Present(config, old(Now()), f)
    {
      PresentKeeps(config, Now(), f);
      SoundBuffers(config, Now());
      hide *;
      ok := RunPresent(f);
    }

    method RunPresent(f: Frame) returns (ok: bool)
      requires active < config.buffers == |screens| && NextBuffer(config, Now()) < config.buffers
      requires |Aim(config, Now(), f).screens| == |screens|
      modifies this
      ensures (Now(), ok) == Present(config, old(Now()), f)
    {
      hide Aim, Draw, Prepare;
      if !f.usable || f.width == 0 || f.height == 0 { return false; }
      var next := active;
      if config.buffers > 1 { next := (active + 1) % config.buffers; }
      AimAt(f);
      var clear := ClearNext(f, next);
      if !clear { return false; }
      DrawFrame(f, next);
      if !f.drawOk || !f.syncOk { return false; }
      ok := f.panOk;
      if ok {
        active := next;
        visible := next;
      }
    }
  }
}
