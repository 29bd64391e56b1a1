// Cutting text into UTF-8 units: the text module's and the drawing code's segmenters, copying
// whole units into a bounded buffer, and the marquee that scrolls a long text through a window.
// A text is its octets before the terminating zero.

module Utf8Text {
  import opened Arithmetic

  type letter = b: int | 1 <= b < 0x100 witness 1

  type scalar = c: int | 0 < c < 0x11_0000 witness 1

  const SPACE: letter := 0x20
  const HOLD_MS: nat := 900
  const STEP_MS: nat := 180

  // ---------------------------------------------------------------- units

  // The octet at a position; the terminator lies behind the last one.
  function At(t: seq<letter>, i: nat): int { if i < |t| then t[i] else 0 }

  predicate Continues(b: int) { 0x80 <= b < 0xc0 }

  // How many octets a leading octet announces.
  function Announced(b: int): nat
  {
    if 0xc0 <= b < 0xe0 then 2 else if 0xe0 <= b < 0xf0 then 3 else if 0xf0 <= b < 0xf8 then 4 else 1
  }

  function UnitLength(t: seq<letter>): (n: nat)
    ensures n <= |t| && n <= 4 && (t != [] ==> 0 < n)
  {
    if t == [] then 0
    else
      var count := Announced(t[0]);
      if forall i :: 1 <= i < count ==> Continues(At(t, i)) then
        assert count > 1 ==> Continues(At(t, count - 1));
        count
      else 1
  }

  function Units(t: seq<letter>): (units: seq<seq<letter>>)
    decreases |t|
  {
    if t == [] then [] else [t[..UnitLength(t)]] + Units(t[UnitLength(t)..])
  }

  function Joined(units: seq<seq<letter>>): seq<letter>
  {
    if units == [] then [] else units[0] + Joined(units[1..])
  }

  // The units of a text are a partition of it, and each is a unit on its own.
  lemma {:induction false} UnitsPartition(t: seq<letter>)
    ensures Joined(Units(t)) == t && |Units(t)| <= |t|
    ensures forall u :: u in Units(t) ==> 1 <= |u| <= 4 && UnitLength(u) == |u|
    decreases |t|
  {
    hide UnitLength, Units, Joined;
    UnitsCons(t);
    if t != [] {
      var n := UnitLength(t);
      UnitsPartition(t[n..]);
      UnitIsUnit(t);
      JoinedCons(t[..n], Units(t[n..]));
      assert t[..n] + t[n..] == t;
    }
  }

  lemma UnitsCons(t: seq<letter>)
    ensures t != [] ==> Units(t) == [t[..UnitLength(t)]] + Units(t[UnitLength(t)..])
    ensures t == [] ==> Units(t) == [] && Joined(Units(t)) == []
  {
    hide UnitLength;
  }

  lemma JoinedCons(unit: seq<letter>, rest: seq<seq<letter>>)
    ensures Joined([unit] + rest) == unit + Joined(rest)
  {
    assert ([unit] + rest)[1..] == rest;
  }

  lemma UnitIsUnit(t: seq<letter>)
    requires t != []
    ensures UnitLength(t[..UnitLength(t)]) == UnitLength(t)
  {
    var n := UnitLength(t);
    var u := t[..n];
    if n == Announced(t[0]) {
      forall i | 1 <= i < n ensures Continues(At(u, i)) { assert Continues(At(t, i)); }
    }
  }

  method Utf8CharBytes(t: seq<letter>, at: nat) returns (n: nat)
    requires at <= |t|
    ensures n == UnitLength(t[at..])
  {
    if at == |t| { return 0; }
    var lead := t[at];
    var count: nat;
    if lead < 0x80 { return 1; }
    if 0xc0 <= lead < 0xe0 { count := 2; }
    else if 0xe0 <= lead < 0xf0 { count := 3; }
    else if 0xf0 <= lead < 0xf8 { count := 4; }
    else { return 1; }
    var i := 1;
    while i < count
      invariant 1 <= i <= count == Announced(lead)
      invariant forall k :: 1 <= k < i ==> Continues(At(t[at..], k))
    {
      assert At(t, at + i) == At(t[at..], i);
      if !Continues(At(t, at + i)) { return 1; }
      i := i + 1;
    }
    n := count;
  }

  method Utf8Length(t: seq<letter>) returns (count: nat)
    ensures count == |Units(t)|
  {
    hide UnitLength;
    count := 0;
    var at := 0;
    assert t[0..] == t;
    while at < |t|
      invariant at <= |t| && count + |Units(t[at..])| == |Units(t)|
    {
      var n := Utf8CharBytes(t, at);
      assert t[at..][n..] == t[at + n..];
      at := at + n;
      count := count + 1;
    }
  }

  // ---------------------------------------------------------------- code points

  function Lead(b: int): nat
    requires 0xc0 <= b < 0xf8
  {
    if b < 0xe0 then b - 0xc0 else if b < 0xf0 then b - 0xe0 else b - 0xf0
  }

  function Gather(t: seq<letter>, code: nat, from: nat, count: nat): nat
    decreases count - from
  {
    if from >= count then code else Gather(t, code * 64 + At(t, from) % 64, from + 1, count)
  }

  lemma GatherStep(t: seq<letter>, code: nat, i: nat, count: nat)
    requires i < count
    ensures Gather(t, code, i, count) == Gather(t, code * 64 + At(t, i) % 64, i + 1, count)
  {
  }

  lemma GatherEnds(t: seq<letter>)
    ensures forall code, count :: Gather(t, code, count, count) == code
  {
  }

  // The code point the drawing code shows for the first unit; anything malformed is a question mark.
  function CodePoint(t: seq<letter>): nat
    requires t != []
  {
    if t[0] < 0x80 then t[0]
    else if UnitLength(t) == 1 then 0x3f
    else Gather(t, Lead(t[0]), 1, UnitLength(t))
  }

  // The drawing code's own segmenter: it advances by the text module's unit length on every text.
  method Utf8Next(t: seq<letter>, at: nat) returns (code: nat, next: nat)
    requires at <= |t|
    ensures next == at + UnitLength(t[at..])
    ensures code == if at == |t| then 0 else CodePoint(t[at..])
  {
    hide Gather;
    GatherEnds(t[at..]);
    if at == |t| { return 0, at; }
    var lead: int := t[at];
    var count: nat;
    if lead < 0x80 { return lead, at + 1; }
    if 0xc0 <= lead < 0xe0 { code, count := lead - 0xc0, 1; }
    else if 0xe0 <= lead < 0xf0 { code, count := lead - 0xe0, 2; }
    else if 0xf0 <= lead < 0xf8 { code, count := lead - 0xf0, 3; }
    else { return 0x3f, at + 1; }
    var i := 1;
    while i <= count
      invariant 1 <= i <= count + 1 == Announced(lead)
      invariant forall k :: 1 <= k < i ==> Continues(At(t[at..], k))
      invariant Gather(t[at..], Lead(lead), 1, count + 1) == Gather(t[at..], code, i, count + 1)
    {
      assert At(t, at + i) == At(t[at..], i);
      if !Continues(At(t, at + i)) { return 0x3f, at + 1; }
      GatherStep(t[at..], code, i, count + 1);
      code := code * 64 + At(t, at + i) % 64;
      i := i + 1;
    }
    next := at + count + 1;
  }

  // The encoding of section 3 of RFC 3629.
  function Encode(code: scalar): (u: seq<letter>)
    ensures 1 <= |u| <= 4
  {
    if code < 0x80 then [code]
    else if code < 0x800 then [0xc0 + code / 64, 0x80 + code % 64]
    else if code < 0x1_0000 then [0xe0 + code / 4096, 0x80 + code / 64 % 64, 0x80 + code % 64]
    else [0xf0 + code / 262144, 0x80 + code / 4096 % 64, 0x80 + code / 64 % 64, 0x80 + code % 64]
  }

  // Encoded text is cut at its code points, and each unit shows its code point.
  lemma EncodeIsUnit(code: scalar, rest: seq<letter>)
    ensures UnitLength(Encode(code) + rest) == |Encode(code)|
    ensures CodePoint(Encode(code) + rest) == code
  {
    var u := Encode(code);
    var t := u + rest;
    EncodeShape(code);
    if code >= 0x80 { EncodeDigits(code); }
    assert forall i :: 0 <= i < |u| ==> At(t, i) == At(u, i) == u[i];
    hide Encode;
    assert UnitLength(t) == |u|;
    assert |u| == 1 ==> CodePoint(t) == code;
    if |u| > 1 {
      hide UnitLength;
      GatherIs(t, Lead(t[0]));
    }
  }

  // A leading octet that announces the length, then continuations carrying six bits each.
  lemma EncodeShape(code: scalar)
    ensures var u := Encode(code);
            && Announced(u[0]) == |u|
            && (forall i :: 1 <= i < |u| ==> Continues(u[i]))
            && (|u| == 1 ==> u[0] == code < 0x80)
            && (|u| > 1 ==> 0xc0 <= u[0] < 0xf8)
  {
  }

  lemma EncodeDigits(code: scalar)
    requires code >= 0x80
    ensures var u := Encode(code);
            && 0xc0 <= u[0] < 0xf8
            && (|u| == 2 ==> Lead(u[0]) * 64 + At(u, 1) % 64 == code)
            && (|u| == 3 ==> (Lead(u[0]) * 64 + At(u, 1) % 64) * 64 + At(u, 2) % 64 == code)
            && (|u| == 4 ==> ((Lead(u[0]) * 64 + At(u, 1) % 64) * 64 + At(u, 2) % 64) * 64 + At(u, 3) % 64 == code)
  {
    var a, b, c := code / 64, code / 4096, code / 262144;
    assert code == a * 64 + code % 64;
    assert a == b * 64 + a % 64 by { assert b == a / 64; }
    assert b == c * 64 + b % 64 by { assert c == b / 64; }
    SixBits(code % 64); SixBits(a % 64); SixBits(b % 64);
    if code < 0x800 { assert Lead(Encode(code)[0]) == a; }
    else if code < 0x1_0000 { assert Lead(Encode(code)[0]) == b; }
    else { assert Lead(Encode(code)[0]) == c; }
  }

  lemma SixBits(v: nat)
    requires v < 64
    ensures (0x80 + v) % 64 == v
  {
  }

  lemma GatherIs(t: seq<letter>, code: nat)
    ensures Gather(t, code, 1, 2) == code * 64 + At(t, 1) % 64
    ensures Gather(t, code, 1, 3) == (code * 64 + At(t, 1) % 64) * 64 + At(t, 2) % 64
    ensures Gather(t, code, 1, 4) == ((code * 64 + At(t, 1) % 64) * 64 + At(t, 2) % 64) * 64 + At(t, 3) % 64
  {
  }

  function Encoded(codes: seq<scalar>): seq<letter>
  {
    if codes == [] then [] else Encode(codes[0]) + Encoded(codes[1..])
  }

  lemma {:induction false} EncodedUnits(codes: seq<scalar>)
    ensures |Units(Encoded(codes))| == |codes|
    ensures forall i :: 0 <= i < |codes| ==>
              Units(Encoded(codes))[i] == Encode(codes[i]) && CodePoint(Units(Encoded(codes))[i]) == codes[i]
  {
    hide Encode, UnitLength, CodePoint;
    if codes != [] {
      var t := Encoded(codes);
      EncodedUnits(codes[1..]);
      EncodeIsUnit(codes[0], Encoded(codes[1..]));
      EncodeIsUnit(codes[0], []);
      assert Encode(codes[0]) + [] == Encode(codes[0]);
      var n := |Encode(codes[0])|;
      assert t[..n] == Encode(codes[0]) && t[n..] == Encoded(codes[1..]);
    }
  }

  // ---------------------------------------------------------------- bounded copies

  // How many whole units, from the first on, fit into a number of octets.
  function Fitting(units: seq<seq<letter>>, room: nat): (n: nat)
    ensures n <= |units|
  {
    if units == [] || |units[0]| > room then 0 else 1 + Fitting(units[1..], room - |units[0]|)
  }

  // That many fit and not one more: the longest prefix of whole units.
  lemma {:induction false} FittingIsLongest(units: seq<seq<letter>>, room: nat, n: nat)
    requires n <= |units|
    ensures n <= Fitting(units, room) <==> |Joined(units[..n])| <= room
  {
    if n == 0 {
    } else {
      assert units[..n][1..] == units[1..][..n - 1];
      if |units[0]| <= room { FittingIsLongest(units[1..], room - |units[0]|, n - 1); }
    }
  }

  // The buffer holds a text: its octets and the terminator.
  ghost predicate Holds(dst: array<int>, t: seq<letter>)
    reads dst
  {
    |t| < dst.Length && dst[|t|] == 0 && forall i :: 0 <= i < |t| ==> dst[i] == t[i]
  }

  method Append(dst: array<int>, ghost held: seq<letter>, used: nat, unit: seq<letter>)
    requires used == |held| && used + |unit| < dst.Length
    requires forall i :: 0 <= i < used ==> dst[i] == held[i]
    modifies dst
    ensures Holds(dst, held + unit)
  {
    for i := 0 to |unit|
      invariant forall k :: 0 <= k < used ==> dst[k] == held[k]
      invariant forall k :: 0 <= k < i ==> dst[used + k] == unit[k]
    {
      dst[used + i] := unit[i];
    }
    dst[used + |unit|] := 0;
    assert forall k :: used <= k < used + |unit| ==> dst[k] == dst[used + (k - used)];
  }

  method CopyChars(dst: array<int>, src: seq<letter>, maxChars: nat) returns (chars: nat)
    modifies dst
    ensures dst.Length == 0 ==> chars == 0
    ensures dst.Length > 0 ==>
              var window := Units(src)[..if maxChars < |Units(src)| then maxChars else |Units(src)|];
              chars == Fitting(window, dst.Length - 1) && Holds(dst, Joined(window[..chars]))
  {
    hide UnitLength, Copied, Fitting, Joined, Units;
    chars := 0;
    if dst.Length == 0 { return; }
    ghost var units := Units(src);
    ghost var window := units[..if maxChars < |units| then maxChars else |units|];
    ghost var room := dst.Length - 1;
    var used, at := 0, 0;
    ghost var held: seq<letter> := [];
    UnitsPartition(src);
    CopyStarts(window, room);
    UnitsFrom(src, 0);
    while at < |src| && chars < maxChars
      invariant at <= |src| && chars <= |units| && UnitsLeft(src, at, chars)
      invariant used == |held| < dst.Length && Copied(window, chars, chars, held, room)
      invariant forall i :: 0 <= i < used ==> dst[i] == held[i]
    {
      var n := Utf8CharBytes(src, at);
      NextUnit(src, at, chars);
      CopyContinues(window, chars, chars, held, room);
      if used + n >= dst.Length { break; }
      Append(dst, held, used, src[at..at + n]);
      held := held + window[chars];
      used := used + n;
      at := at + n;
      chars := chars + 1;
    }
    dst[used] := 0;
    if at == |src| { UnitsFrom(src, at); }
    CopyEnds(window, chars, chars, held, room);
  }

  // From an octet position on, the units from a given one on are left.
  ghost predicate UnitsLeft(t: seq<letter>, at: nat, k: nat)
  {
    at <= |t| && k <= |Units(t)| && Units(t[at..]) == Units(t)[k..]
  }

  lemma UnitsFrom(t: seq<letter>, at: nat)
    requires at <= |t|
    ensures at == 0 ==> UnitsLeft(t, 0, 0)
    ensures at == |t| ==> forall k :: UnitsLeft(t, at, k) ==> k == |Units(t)|
  {
    if at == 0 { assert t[0..] == t; }
    if at == |t| { assert t[at..] == []; }
  }

  lemma NextUnit(t: seq<letter>, at: nat, k: nat)
    requires UnitsLeft(t, at, k) && at < |t|
    ensures var n := UnitLength(t[at..]);
            k < |Units(t)| && Units(t)[k] == t[at..at + n] && UnitsLeft(t, at + n, k + 1)
  {
    hide UnitLength;
    var n := UnitLength(t[at..]);
    assert t[at..][n..] == t[at + n..] && t[at..][..n] == t[at..at + n];
    assert Units(t)[k..][0] == Units(t)[k] && Units(t)[k..][1..] == Units(t)[k + 1..];
  }

  lemma {:induction false} JoinedAppend(units: seq<seq<letter>>, unit: seq<letter>)
    ensures Joined(units + [unit]) == Joined(units) + unit
  {
    if units == [] {
      assert Joined([unit]) == unit + Joined([]);
    } else {
      assert (units + [unit])[1..] == units[1..] + [unit];
      JoinedAppend(units[1..], unit);
    }
  }

  // ---------------------------------------------------------------- the plain copy

  method TextCopy(dst: array<int>, src: seq<letter>)
    modifies dst
    ensures dst.Length > 0 ==> Holds(dst, src[..Min(|src|, dst.Length - 1)])
  {
    if dst.Length == 0 { return; }
    var i := 0;
    while dst.Length - i > 1 && i < |src|
      invariant i <= |src| && i < dst.Length
      invariant forall k :: 0 <= k < i ==> dst[k] == src[k]
    {
      dst[i] := src[i];
      i := i + 1;
    }
    dst[i] := 0;
  }

  // ---------------------------------------------------------------- the marquee

  // The text and three spaces, as units, going round.
  function Cycle(t: seq<letter>): (c: seq<seq<letter>>)
    ensures |c| == |Units(t)| + 3
  {
    Units(t) + [[SPACE], [SPACE], [SPACE]]
  }

  function Offset(t: seq<letter>, elapsedMs: nat): (n: nat)
    ensures n < |Cycle(t)|
  {
    if elapsedMs < HOLD_MS then 0 else (elapsedMs - HOLD_MS) / STEP_MS % |Cycle(t)|
  }

  // The text stands for 900 milliseconds and then moves on by one unit every 180, round and round.
  lemma OffsetMoves(t: seq<letter>, elapsedMs: nat)
    ensures elapsedMs < 900 + 180 ==> Offset(t, elapsedMs) == 0
    ensures elapsedMs >= 900 ==>
              Offset(t, elapsedMs + 180) ==
              if Offset(t, elapsedMs) + 1 == |Units(t)| + 3 then 0 else Offset(t, elapsedMs) + 1
  {
    hide Units;
    var n := |Cycle(t)|;
    if elapsedMs >= 900 {
      var k := (elapsedMs - 900) / 180;
      assert (elapsedMs + 180 - 900) / 180 == k + 1;
      NextAround(k, n);
    }
  }

  lemma NextAround(k: nat, n: nat)
    requires 0 < n
    ensures (k + 1) % n == if k % n + 1 == n then 0 else k % n + 1
  {
    var q := k / n;
    if k % n + 1 == n {
      assert k + 1 == (q + 1) * n;
      DivisionIs(k + 1, q + 1, 0, n);
    } else {
      DivisionIs(k + 1, q, k % n + 1, n);
    }
  }

  // The place in the cycle that a window's i-th position looks at.
  function Around(offset: nat, i: nat, cycle: nat): (p: nat)
    requires 0 < cycle
    ensures p < cycle
  {
    (offset + i) % cycle
  }

  function Window(t: seq<letter>, offset: nat, chars: nat): (w: seq<seq<letter>>)
    ensures |w| == chars
  {
    seq(chars, i requires 0 <= i < chars => Cycle(t)[Around(offset, i, |Cycle(t)|)])
  }

  // What the marquee shows: a text of few enough units is copied octet by octet, a longer one is
  // seen through the window, as many whole units of it as fit the buffer.
  function Shown(t: seq<letter>, size: nat, maxChars: nat, elapsedMs: nat): (r: (seq<letter>, nat))
    requires 0 < size
  {
    var chars := Min(maxChars, size - 1);
    if chars == 0 then ([], 0)
    else if |Units(t)| <= chars then (t[..Min(|t|, size - 1)], 0)
    else
      var w := Window(t, Offset(t, elapsedMs), chars);
      (Joined(w[..Fitting(w, size - 1)]), 1)
  }

  method Strlen(a: array<int>, ghost held: seq<letter>) returns (n: nat)
    requires Holds(a, held)
    ensures n == |held|
  {
    n := 0;
    while a[n] != 0
      invariant n <= |held| < a.Length && forall i :: 0 <= i < |held| ==> a[i] == held[i]
      decreases |held| - n
    {
      n := n + 1;
    }
  }

  // The start of a unit, found by walking over the units before it.
  method SeekUnit(t: seq<letter>, pos: nat) returns (at: nat, n: nat)
    requires pos < |Units(t)|
    ensures at + n <= |t| && t[at..at + n] == Units(t)[pos] && n == |Units(t)[pos]|
  {
    hide UnitLength, Units;
    at := 0;
    UnitsFrom(t, 0);
    for i := 0 to pos
      invariant at <= |t| && UnitsLeft(t, at, i)
    {
      if at == |t| { UnitsFrom(t, at); }
      var step := Utf8CharBytes(t, at);
      NextUnit(t, at, i);
      at := at + step;
    }
    if at == |t| { UnitsFrom(t, at); }
    n := Utf8CharBytes(t, at);
    NextUnit(t, at, pos);
  }

  method Marquee(dst: array<int>, t: seq<letter>, maxChars: nat, elapsedMs: nat) returns (moving: nat)
    modifies dst
    ensures dst.Length == 0 ==> moving == 0
    ensures dst.Length > 0 ==>
              var r := Shown(t, dst.Length, maxChars, elapsedMs); Holds(dst, r.0) && moving == r.1
  {
    hide UnitLength;
    if dst.Length == 0 { return 0; }
    var chars := maxChars;
    if chars >= dst.Length { chars := dst.Length - 1; }
    var len := Utf8Length(t);
    if len <= chars || chars == 0 {
      var source := if chars != 0 then t else [];
      TextCopy(dst, source);
      assert source == [] ==> source[..0] == [];
      return 0;
    }
    var offset := if elapsedMs < HOLD_MS then 0 else (elapsedMs - HOLD_MS) / STEP_MS % (len + 3);
    hide *;
    moving := 1;
    ScrollUnits(dst, t, len, offset, chars);
  }

  // The first units of the window that have been copied, and what that says about the rest: once
  // a unit did not fit, the buffer is full.
  ghost predicate Copied(window: seq<seq<letter>>, whole: nat, i: nat, held: seq<letter>, room: nat)
  {
    && whole <= i <= |window| && held == Joined(window[..whole]) && |held| <= room
    && Fitting(window, room) == whole + Fitting(window[whole..], room - |held|)
    && (whole < i ==> |held| == room)
  }

  lemma CopyStarts(window: seq<seq<letter>>, room: nat)
    ensures Copied(window, 0, 0, [], room)
  {
    assert window[0..] == window && window[..0] == [];
  }

  lemma CopyContinues(window: seq<seq<letter>>, whole: nat, i: nat, held: seq<letter>, room: nat)
    requires Copied(window, whole, i, held, room) && i < |window| && 1 <= |window[i]|
    ensures |held| + |window[i]| <= room ==> whole == i && Copied(window, whole + 1, i + 1, held + window[i], room)
    ensures |held| == room ==> Copied(window, whole, i + 1, held, room)
  {
    if |held| + |window[i]| <= room {
      FittingUnfolds(window, whole, room - |held|);
      assert window[..whole + 1] == window[..whole] + [window[i]];
      JoinedAppend(window[..whole], window[i]);
    }
  }

  lemma CopyEnds(window: seq<seq<letter>>, whole: nat, i: nat, held: seq<letter>, room: nat)
    requires Copied(window, whole, i, held, room)
    requires forall k :: 0 <= k < |window| ==> 1 <= |window[k]|
    requires i < |window| ==> |held| + |window[i]| > room
    ensures whole == Fitting(window, room) && held == Joined(window[..whole])
  {
    if whole < |window| { FittingUnfolds(window, whole, room - |held|); }
  }

  lemma PaddedAt(units: seq<seq<letter>>, p: nat)
    requires p < |units| + 3
    ensures (units + [[SPACE], [SPACE], [SPACE]])[p] == if p < |units| then units[p] else [SPACE]
  {
    if p >= |units| { assert (units + [[SPACE], [SPACE], [SPACE]])[p] == [[SPACE], [SPACE], [SPACE]][p - |units|]; }
  }

  lemma WindowUnits(t: seq<letter>, offset: nat, chars: nat, i: nat)
    requires i < chars
    ensures 1 <= |Window(t, offset, chars)[i]|
    ensures var pos := Around(offset, i, |Units(t)| + 3);
            Window(t, offset, chars)[i] == if pos < |Units(t)| then Units(t)[pos] else [SPACE]
  {
    hide Around, UnitLength, Units;
    UnitsPartition(t);
    var pos := Around(offset, i, |Units(t)| + 3);
    PaddedAt(Units(t), pos);
    assert pos < |Units(t)| ==> Units(t)[pos] in Units(t);
  }

  method ScrollUnits(dst: array<int>, t: seq<letter>, len: nat, offset: nat, chars: nat)
    requires dst.Length > 0 && len == |Units(t)|
    modifies dst
    ensures var w := Window(t, offset, chars); Holds(dst, Joined(w[..Fitting(w, dst.Length - 1)]))
  {
    hide UnitLength, Around, Copied, Units, Cycle, Window, Joined;
    ghost var window := Window(t, offset, chars);
    ghost var room, whole := dst.Length - 1, 0;
    ghost var held: seq<letter> := [];
    forall k | 0 <= k < |window| ensures 1 <= |window[k]| { WindowUnits(t, offset, chars, k); }
    CopyStarts(window, room);
    dst[0] := 0;
    var i := 0;
    while i < chars
      invariant i <= chars && Copied(window, whole, i, held, room) && Holds(dst, held)
    {
      var pos := Around(offset, i, len + 3);
      WindowUnits(t, offset, chars, i);
      CopyContinues(window, whole, i, held, room);
      var used := Strlen(dst, held);
      if pos < len {
        var at, n := SeekUnit(t, pos);
        if used + n >= dst.Length { break; }
        Append(dst, held, used, t[at..at + n]);
        held, whole := held + window[i], whole + 1;
      } else if used + 1 < dst.Length {
        Append(dst, held, used, [SPACE]);
        held, whole := held + window[i], whole + 1;
      }
      i := i + 1;
    }
    CopyEnds(window, whole, i, held, room);
  }

  lemma FittingUnfolds(units: seq<seq<letter>>, k: nat, room: nat)
    requires k < |units|
    ensures Fitting(units[k..], room) ==
            if |units[k]| > room then 0 else 1 + Fitting(units[k + 1..], room - |units[k]|)
  {
    assert units[k..][1..] == units[k + 1..];
  }

  // What is shown of a long text never cuts a unit, and is the whole window when that fits.
  lemma WindowIsWhole(t: seq<letter>, size: nat, maxChars: nat, elapsedMs: nat)
    requires 0 < size && 0 < Min(maxChars, size - 1) < |Units(t)|
    ensures var chars := Min(maxChars, size - 1);
            var w := Window(t, Offset(t, elapsedMs), chars);
            && (exists n: nat :: n <= chars && Shown(t, size, maxChars, elapsedMs) == (Joined(w[..n]), 1))
            && (|Joined(w)| < size ==> Shown(t, size, maxChars, elapsedMs).0 == Joined(w))
  {
    var chars := Min(maxChars, size - 1);
    var w := Window(t, Offset(t, elapsedMs), chars);
    FittingIsLongest(w, size - 1, chars);
    assert w[..chars] == w;
    var n := Fitting(w, size - 1);
    assert Shown(t, size, maxChars, elapsedMs) == (Joined(w[..n]), 1);
  }

  // A short text is shown whole exactly when its octets fit; otherwise it is cut at the buffer's
  // end even inside a unit, because the copy counts octets.
  lemma ShortTextIsWholeIff(t: seq<letter>, size: nat, maxChars: nat, elapsedMs: nat)
    requires 0 < size && 0 < Min(maxChars, size - 1) && |Units(t)| <= Min(maxChars, size - 1)
    ensures Shown(t, size, maxChars, elapsedMs).0 == t <==> |t| < size
  {
  }

  // The text consists of the first units of another one.
  ghost predicate FirstUnits(t: seq<letter>, s: seq<letter>)
  {
    exists n: nat :: n <= |Units(t)| && s == Joined(Units(t)[..n])
  }

  // A unit of the text ends behind its first n octets, or n is zero.
  ghost predicate UnitEndsAt(t: seq<letter>, n: nat)
  {
    exists k: nat :: k <= |Units(t)| && |Joined(Units(t)[..k])| == n
  }

  // The first units of a text are a prefix of it.
  lemma {:induction false} UnitsAreAPrefix(t: seq<letter>, n: nat)
    requires n <= |Units(t)|
    ensures Joined(Units(t)[..n]) <= t
    decreases n
  {
    hide UnitLength;
    if n > 0 {
      UnitsCons(t);
      var len := UnitLength(t);
      UnitsAreAPrefix(t[len..], n - 1);
      assert Units(t)[..n][1..] == Units(t[len..])[..n - 1];
      assert t == t[..len] + t[len..];
    }
  }

  lemma UnitsEndAt(t: seq<letter>, n: nat)
    requires n <= |t|
    ensures FirstUnits(t, t[..n]) <==> UnitEndsAt(t, n)
  {
    hide UnitLength, Units, Joined;
    if k: nat :| k <= |Units(t)| && |Joined(Units(t)[..k])| == n {
      UnitsAreAPrefix(t, k);
      assert t[..n] == Joined(Units(t)[..k]);
    }
  }

  lemma WholeIsFirstUnits(t: seq<letter>)
    ensures FirstUnits(t, t) && FirstUnits(t, [])
  {
    hide UnitLength, Units;
    UnitsPartition(t);
    assert Units(t)[..|Units(t)|] == Units(t);
    assert Joined(Units(t)[..0]) == [];
  }

  // What is shown of a short text cuts no unit exactly when all of it fits, or a unit happens to
  // end where the buffer does.
  lemma ShortTextCutsNoUnitIff(t: seq<letter>, size: nat, maxChars: nat, elapsedMs: nat)
    requires 0 < size && (|Units(t)| <= Min(maxChars, size - 1) || maxChars == 0)
    ensures FirstUnits(t, Shown(t, size, maxChars, elapsedMs).0) <==>
            maxChars == 0 || |t| < size || UnitEndsAt(t, size - 1)
  {
    hide UnitLength, Units, FirstUnits, UnitEndsAt, Window, Offset, Fitting;
    WholeIsFirstUnits(t);
    if maxChars > 0 {
      ShortIsPrefix(t, size, maxChars, elapsedMs);
      if |t| < size { assert t[..|t|] == t; } else { UnitsEndAt(t, size - 1); }
    }
  }

  lemma ShortIsPrefix(t: seq<letter>, size: nat, maxChars: nat, elapsedMs: nat)
    requires 0 < size && |Units(t)| <= Min(maxChars, size - 1)
    ensures Shown(t, size, maxChars, elapsedMs).0 == t[..Min(|t|, size - 1)]
  {
    hide UnitLength, Window, Offset, Fitting;
    if Min(maxChars, size - 1) == 0 { UnitsPartition(t); }
  }

  // Two letters of two octets each in a buffer of four: the second letter is cut in half.
  lemma ShortTextCanBeCut()
    ensures var t: seq<letter> := [0xc3, 0xa9, 0xc3, 0xa9];
            && Units(t) == [[0xc3, 0xa9], [0xc3, 0xa9]]
            && Shown(t, 4, 3, 0).0 == [0xc3, 0xa9, 0xc3]
            && Units(Shown(t, 4, 3, 0).0) == [[0xc3, 0xa9], [0xc3]]
  {
    var t: seq<letter> := [0xc3, 0xa9, 0xc3, 0xa9];
    EncodedUnits([0xe9, 0xe9]);
    assert Encode(0xe9) == [0xc3, 0xa9];
    assert Encoded([0xe9, 0xe9]) == t by { assert [0xe9, 0xe9][1..] == [0xe9]; assert [0xe9][1..] == []; }
    assert t[..3] == [0xc3, 0xa9, 0xc3];
    var u: seq<letter> := [0xc3, 0xa9, 0xc3];
    assert UnitLength(u) == 2 by { assert At(u, 1) == 0xa9; }
    assert u[..2] == [0xc3, 0xa9] && u[2..] == [0xc3];
    var v: seq<letter> := [0xc3];
    assert UnitLength(v) == 1 by { assert At(v, 1) == 0; }
    assert v[..1] == v && v[1..] == [];
  }
}
