/** PNG row filters (W3C PNG specification, section 9): the filters and their in-place inverse. */
module PngFilter {
  import opened Arithmetic
  import opened Bytes

  function Abs(v: int): nat { if v < 0 then -v else v }

  /** paeth. */
  function Paeth(a: byte, b: byte, c: byte): byte
  {
    var p: int := a as int + b as int - c as int;
    var pa, pb, pc := Abs(p - a), Abs(p - b), Abs(p - c);
    if pa <= pb && pa <= pc then a
    else if pb <= pc then b
    else c
  }

  /** The neighbour nearest to left + up - upLeft, ties going to the left and then to the upper one. */
  lemma PaethIsNearest(a: byte, b: byte, c: byte)
    ensures var p: int, r := a as int + b as int - c as int, Paeth(a, b, c);
            && r in [a, b, c]
            && (forall n :: n in [a, b, c] ==> Abs(p - r) <= Abs(p - n))
            && (r != a ==> Abs(p - r) < Abs(p - a))
            && (r != a && r != b ==> Abs(p - r) < Abs(p - b))
  {}

  /** The predictor of filter type f from the left, upper and upper-left octets. */
  function Predict(f: byte, left: byte, up: byte, upLeft: byte): byte
  {
    match f
    case 1 => left
    case 2 => up
    case 3 => (left as int + up as int) / 2
    case 4 => Paeth(left, up, upLeft)
    case _ => 0
  }

  /** The octet that undoes filter type f. */
  function Undo(f: byte, v: byte, left: byte, up: byte, upLeft: byte): byte
  {
    (v as int + Predict(f, left, up, upLeft) as int) % 0x100
  }

  function Behind(row: seq<byte>, x: nat, distance: nat): byte
    requires x < |row| && distance > 0
  {
    if x >= distance then row[x - distance] else 0
  }

  function Zeros(n: nat): (z: seq<byte>)
    ensures |z| == n && forall k :: 0 <= k < n ==> z[k] == 0
  {
    seq(n, _ => 0)
  }

  // ------------------------------------------------------------- filtering

  /** The octets of `row` filtered with type f, `prev` being the row above it. */
  function FilterRow(f: byte, row: seq<byte>, prev: seq<byte>, bpp: nat): (line: seq<byte>)
    requires |prev| == |row| && bpp > 0
    ensures |line| == |row|
  {
    seq(|row|, x requires 0 <= x < |row| =>
      (row[x] as int - Predict(f, Behind(row, x, bpp), prev[x], Behind(prev, x, bpp)) as int) % 0x100)
  }

  lemma OneRowMore(width: nat, height: nat, rest: nat)
    requires height > 0 && rest == (width + 1) * (height - 1)
    ensures 1 + width + rest == (width + 1) * height
  {}

  /** Each row behind its filter type. */
  function FilterRows(rows: seq<seq<byte>>, types: seq<byte>, prev: seq<byte>, bpp: nat): (s: seq<byte>)
    requires bpp > 0 && |types| == |rows|
    requires forall r :: r in rows ==> |r| == |prev|
    ensures |s| == (|prev| + 1) * |rows|
    decreases |rows|
  {
    if rows == [] then []
    else
      assert rows[0] in rows;
      var rest := FilterRows(rows[1..], types[1..], rows[0], bpp);
      OneRowMore(|prev|, |rows|, |rest|);
      [types[0]] + FilterRow(types[0], rows[0], prev, bpp) + rest
  }

  // ----------------------------------------------------------- unfiltering

  /** The first n octets of the row that filter type f has turned into `line`. */
  function UnfilterPrefix(f: byte, line: seq<byte>, prev: seq<byte>, bpp: nat, n: nat): (row: seq<byte>)
    requires |prev| == |line| && bpp > 0 && n <= |line|
    ensures |row| == n
    decreases n
  {
    if n == 0 then []
    else
      var row := UnfilterPrefix(f, line, prev, bpp, n - 1);
      var left := if n - 1 >= bpp then row[n - 1 - bpp] else 0;
      row + [Undo(f, line[n - 1], left, prev[n - 1], Behind(prev, n - 1, bpp))]
  }

  /** The rows behind `src`; None when a row has an unknown filter type. */
  function UnfilterRows(src: seq<byte>, rowBytes: nat, height: nat, prev: seq<byte>, bpp: nat)
    : (r: Option<seq<seq<byte>>>)
    requires |prev| == rowBytes && bpp > 0 && |src| >= (rowBytes + 1) * height
    ensures r.Some? ==> |r.value| == height && forall row :: row in r.value ==> |row| == rowBytes
    decreases height
  {
    if height == 0 then Some([])
    else if src[0] > 4 && rowBytes > 0 then None
    else
      var row := UnfilterPrefix(src[0], src[1..rowBytes + 1], prev, bpp, rowBytes);
      match UnfilterRows(src[rowBytes + 1..], rowBytes, height - 1, row, bpp)
      case None => None
      case Some(rest) => Some([row] + rest)
  }

  // --------------------------------------------------------------- inverse

  lemma {:induction false} UnfilterInvertsRow(f: byte, row: seq<byte>, prev: seq<byte>, bpp: nat, n: nat)
    requires |prev| == |row| && bpp > 0 && n <= |row|
    ensures UnfilterPrefix(f, FilterRow(f, row, prev, bpp), prev, bpp, n) == row[..n]
    decreases n
  {
    if n > 0 {
      hide Undo, Predict, FilterRow;
      UnfilterInvertsRow(f, row, prev, bpp, n - 1);
      UndoInverts(f, row, prev, bpp, n - 1);
      assert row[..n] == row[..n - 1] + [row[n - 1]];
    }
  }

  lemma UndoInverts(f: byte, row: seq<byte>, prev: seq<byte>, bpp: nat, x: nat)
    requires |prev| == |row| && bpp > 0 && x < |row|
    ensures Undo(f, FilterRow(f, row, prev, bpp)[x], Behind(row, x, bpp), prev[x], Behind(prev, x, bpp)) == row[x]
  {
    hide Predict;
    var p := Predict(f, Behind(row, x, bpp), prev[x], Behind(prev, x, bpp));
    assert ((row[x] as int - p as int) % 0x100 + p as int) % 0x100 == row[x] as int;
  }

  lemma FilterRowsCons(rows: seq<seq<byte>>, types: seq<byte>, prev: seq<byte>, bpp: nat, more: seq<byte>)
    requires bpp > 0 && |types| == |rows| > 0 && |rows[0]| == |prev|
    requires (forall r :: r in rows ==> |r| == |prev|) && (forall r :: r in rows[1..] ==> |r| == |rows[0]|)
    ensures FilterRows(rows, types, prev, bpp) + more ==
            [types[0]] + FilterRow(types[0], rows[0], prev, bpp) +
            (FilterRows(rows[1..], types[1..], rows[0], bpp) + more)
    ensures |FilterRows(rows[1..], types[1..], rows[0], bpp)| == (|prev| + 1) * (|rows| - 1)
  {
    hide FilterRow;
  }

  lemma UnfilterFirstRow(f: byte, line: seq<byte>, rest: seq<byte>, height: nat, prev: seq<byte>, bpp: nat)
    requires bpp > 0 && height > 0 && f <= 4 && |line| == |prev|
    requires |rest| >= (|prev| + 1) * (height - 1)
    ensures |[f] + line + rest| >= (|prev| + 1) * height
    ensures var row := UnfilterPrefix(f, line, prev, bpp, |prev|);
            UnfilterRows([f] + line + rest, |prev|, height, prev, bpp) ==
            match UnfilterRows(rest, |prev|, height - 1, row, bpp)
            case None => None
            case Some(rows) => Some([row] + rows)
  {
    hide UnfilterPrefix;
    OneMoreTime(height - 1, |prev| + 1);
    var src := [f] + line + rest;
    assert src[0] == f && src[1..|prev| + 1] == line && src[|prev| + 1..] == rest;
  }

  /** Unfiltering inverts filtering, whatever type was chosen for each row. */
  lemma {:induction false} UnfilterInvertsFilter(rows: seq<seq<byte>>, types: seq<byte>, prev: seq<byte>,
                                                 bpp: nat, more: seq<byte>)
    requires bpp > 0 && |types| == |rows|
    requires forall t :: t in types ==> t <= 4
    requires forall r :: r in rows ==> |r| == |prev|
    ensures UnfilterRows(FilterRows(rows, types, prev, bpp) + more, |prev|, |rows|, prev, bpp) == Some(rows)
    decreases |rows|
  {
    hide FilterRow;
    hide UnfilterPrefix;
    if rows == [] {
      assert UnfilterRows(more, |prev|, 0, prev, bpp) == Some([]);
      assert FilterRows(rows, types, prev, bpp) + more == more;
    } else {
      assert rows[0] in rows && types[0] in types;
      assert forall t :: t in types[1..] ==> t in types;
      assert forall r :: r in rows[1..] ==> r in rows;
      UnfilterInvertsFilter(rows[1..], types[1..], rows[0], bpp, more);
      FirstRowBack(rows, types, prev, bpp, more);
      hide FilterRows, UnfilterRows;
      HeadAndTail(rows);
    }
  }

  lemma HeadAndTail(rows: seq<seq<byte>>)
    requires rows != []
    ensures [rows[0]] + rows[1..] == rows
  {}

  /** The first row comes back, and the rest is left to be unfiltered below it. */
  lemma FirstRowBack(rows: seq<seq<byte>>, types: seq<byte>, prev: seq<byte>, bpp: nat, more: seq<byte>)
    requires bpp > 0 && |types| == |rows| > 0 && |rows[0]| == |prev| && types[0] <= 4
    requires (forall r :: r in rows ==> |r| == |prev|) && (forall r :: r in rows[1..] ==> |r| == |rows[0]|)
    ensures |FilterRows(rows[1..], types[1..], rows[0], bpp)| == (|prev| + 1) * (|rows| - 1)
    ensures UnfilterRows(FilterRows(rows, types, prev, bpp) + more, |prev|, |rows|, prev, bpp) ==
            match UnfilterRows(FilterRows(rows[1..], types[1..], rows[0], bpp) + more, |prev|, |rows| - 1, rows[0], bpp)
            case None => None
            case Some(rest) => Some([rows[0]] + rest)
  {
    FilterRowsCons(rows, types, prev, bpp, more);
    hide FilterRows, UnfilterRows, UnfilterPrefix;
    UnfilterInvertsRow(types[0], rows[0], prev, bpp, |prev|);
    assert rows[0][..|prev|] == rows[0];
    UnfilterFirstRow(types[0], FilterRow(types[0], rows[0], prev, bpp),
                     FilterRows(rows[1..], types[1..], rows[0], bpp) + more, |rows|, prev, bpp);
  }

  // --------------------------------------------------------------- in place

  /** Row y of a buffer that holds rows of rowBytes octets one behind the other. */
  ghost function RowAt(s: seq<byte>, rowBytes: nat, y: nat): (row: seq<byte>)
    requires (y + 1) * rowBytes <= |s|
    ensures |row| == rowBytes
  {
    RowBounds(rowBytes, y, y + 1);
    s[y * rowBytes..y * rowBytes + rowBytes]
  }

  lemma RowBounds(rowBytes: nat, y: nat, height: nat)
    requires y < height
    ensures 0 <= y * rowBytes && y * rowBytes + rowBytes == (y + 1) * rowBytes <= height * rowBytes
  {
    TimesGrows(0, y, rowBytes);
    OneMoreTime(y, rowBytes);
    TimesGrows(y + 1, height, rowBytes);
  }

  /** memcpy(row, in, row_bytes). */
  method CopyLine(dst: array<byte>, base: nat, line: seq<byte>)
    requires base + |line| <= dst.Length
    modifies dst
    ensures dst[..] == Overlay(old(dst[..]), base, line)
  {
    for i := 0 to |line|
      invariant dst[..] == Overlay(old(dst[..]), base, line[..i])
    {
      dst[base + i] := line[i];
      assert line[..i + 1] == line[..i] + [line[i]];
    }
    assert line[..|line|] == line;
  }

  /** The switch over the filter type. */
  method UndoOctet(f: byte, v: byte, left: byte, up: byte, upLeft: byte) returns (ok: bool, r: byte)
    ensures ok <==> f <= 4
    ensures ok ==> r == Undo(f, v, left, up, upLeft)
  {
    hide Paeth;
    ok, r := true, v;
    if f == 1 {
      r := (v as int + left as int) % 0x100;
    } else if f == 2 {
      r := (v as int + up as int) % 0x100;
    } else if f == 3 {
      r := (v as int + (left as int + up as int) / 2) % 0x100;
    } else if f == 4 {
      r := (v as int + Paeth(left, up, upLeft) as int) % 0x100;
    } else if f != 0 {
      ok := false;
    }
  }

  lemma UnfilterStep(f: byte, line: seq<byte>, prev: seq<byte>, bpp: nat, x: nat)
    requires |prev| == |line| && bpp > 0 && x < |line|
    ensures var row := UnfilterPrefix(f, line, prev, bpp, x);
            UnfilterPrefix(f, line, prev, bpp, x + 1) ==
            row + [Undo(f, line[x], if x >= bpp then row[x - bpp] else 0, prev[x], Behind(prev, x, bpp))]
  {}

  /** The inner loop of unfilter_png: add the predictions in place, from left to right. */
  method UnfilterRowInPlace(dst: array<byte>, base: nat, f: byte, ghost line: seq<byte>, rowBytes: nat,
                            hasPrev: bool, ghost prev: seq<byte>, bpp: nat) returns (ok: bool)
    requires bpp > 0 && base + rowBytes <= dst.Length && |prev| == |line| == rowBytes
    requires if hasPrev then base >= rowBytes && dst[base - rowBytes..base] == prev else prev == Zeros(rowBytes)
    requires dst[base..base + rowBytes] == line
    modifies dst
    ensures ok <==> f <= 4 || rowBytes == 0
    ensures ok ==> dst[base..base + rowBytes] == UnfilterPrefix(f, line, prev, bpp, rowBytes)
    ensures dst[..base] == old(dst[..base])
  {
    hide InRow, UnfilterPrefix, Undo;
    ghost var was := dst[..];
    RowBegins(was, base, f, line, prev, hasPrev, bpp);
    for x := 0 to rowBytes
      invariant x > 0 ==> f <= 4
      invariant InRow(dst[..], base, x, f, line, prev, hasPrev, bpp)
      invariant dst[..base] == was[..base]
    {
      ghost var now := dst[..];
      Neighbours(now, base, x, f, line, prev, hasPrev, bpp);
      var left: byte := if x >= bpp then dst[base + x - bpp] else 0;
      var up: byte := if hasPrev then dst[base - rowBytes + x] else 0;
      var upLeft: byte := if hasPrev && x >= bpp then dst[base - rowBytes + x - bpp] else 0;
      var known, v := UndoOctet(f, dst[base + x], left, up, upLeft);
      if !known {
        return false;
      }
      dst[base + x] := v;
      assert dst[..] == now[base + x := v];
    }
    RowEnds(dst[..], base, f, line, prev, hasPrev, bpp);
    ok := true;
  }

  /** The row at base is unfiltered up to x, and still filtered from there on. */
  ghost predicate InRow(s: seq<byte>, base: nat, x: nat, f: byte, line: seq<byte>, prev: seq<byte>,
                        hasPrev: bool, bpp: nat)
  {
    && bpp > 0 && |prev| == |line| && x <= |line| && base + |line| <= |s|
    && s[base..base + x] == UnfilterPrefix(f, line, prev, bpp, x)
    && s[base + x..base + |line|] == line[x..]
    && (if hasPrev then base >= |line| && s[base - |line|..base] == prev else prev == Zeros(|line|))
  }

  lemma RowBegins(s: seq<byte>, base: nat, f: byte, line: seq<byte>, prev: seq<byte>, hasPrev: bool, bpp: nat)
    requires bpp > 0 && |prev| == |line| && base + |line| <= |s| && s[base..base + |line|] == line
    requires if hasPrev then base >= |line| && s[base - |line|..base] == prev else prev == Zeros(|line|)
    ensures InRow(s, base, 0, f, line, prev, hasPrev, bpp)
  {
    assert line[0..] == line;
  }

  lemma RowEnds(s: seq<byte>, base: nat, f: byte, line: seq<byte>, prev: seq<byte>, hasPrev: bool, bpp: nat)
    requires InRow(s, base, |line|, f, line, prev, hasPrev, bpp)
    ensures base + |line| <= |s| && s[base..base + |line|] == UnfilterPrefix(f, line, prev, bpp, |line|)
  {}

  /** The octets the predictor reads are the ones the filter saw, and undoing one octet goes one further. */
  lemma Neighbours(s: seq<byte>, base: nat, x: nat, f: byte, line: seq<byte>, prev: seq<byte>, hasPrev: bool, bpp: nat)
    requires InRow(s, base, x, f, line, prev, hasPrev, bpp) && x < |line|
    ensures base + |line| <= |s| && bpp > 0 && (hasPrev ==> base >= |line|)
    ensures var left := if x >= bpp then s[base + x - bpp] else 0;
            var up := if hasPrev then s[base - |line| + x] else 0;
            var upLeft := if hasPrev && x >= bpp then s[base - |line| + x - bpp] else 0;
            InRow(s[base + x := Undo(f, s[base + x], left, up, upLeft)], base, x + 1, f, line, prev, hasPrev, bpp)
  {
    hide UnfilterPrefix, Undo;
    var row, rest := s[base..base + x], s[base + x..base + |line|];
    assert x >= bpp ==> row[x - bpp] == s[base + x - bpp];
    assert hasPrev ==> s[base - |line|..base][x] == s[base - |line| + x];
    assert hasPrev && x >= bpp ==> s[base - |line|..base][x - bpp] == s[base - |line| + x - bpp];
    assert rest[0] == line[x] && rest[1..] == line[x + 1..];
    UnfilterStep(f, line, prev, bpp, x);
    var left := if x >= bpp then s[base + x - bpp] else 0;
    var up := if hasPrev then s[base - |line| + x] else 0;
    var upLeft := if hasPrev && x >= bpp then s[base - |line| + x - bpp] else 0;
    var v := Undo(f, s[base + x], left, up, upLeft);
    var after := s[base + x := v];
    assert after[base..base + x + 1] == row + [v];
    assert after[base + x + 1..base + |line|] == rest[1..];
    assert hasPrev ==> after[base - |line|..base] == s[base - |line|..base];
  }

  /** The buffer holds these rows. */
  ghost predicate HoldsRows(s: seq<byte>, rowBytes: nat, rows: seq<seq<byte>>)
  {
    && |rows| * rowBytes <= |s|
    && forall y: nat :: y < |rows| ==> (RowBounds(rowBytes, y, |rows|); RowAt(s, rowBytes, y) == rows[y])
  }

  lemma HeldRow(s: seq<byte>, rowBytes: nat, rows: seq<seq<byte>>, y: nat)
    requires HoldsRows(s, rowBytes, rows) && y < |rows|
    ensures (y + 1) * rowBytes <= |s| && RowAt(s, rowBytes, y) == rows[y]
  {
    RowBounds(rowBytes, y, |rows|);
  }

  lemma HoldsOneMore(before: seq<byte>, after: seq<byte>, rowBytes: nat, rows: seq<seq<byte>>, row: seq<byte>)
    requires HoldsRows(before, rowBytes, rows) && |row| == rowBytes
    requires (|rows| + 1) * rowBytes <= |after|
    requires after[..|rows| * rowBytes] == before[..|rows| * rowBytes]
    requires RowAt(after, rowBytes, |rows|) == row
    ensures HoldsRows(after, rowBytes, rows + [row])
  {
    forall y: nat | y < |rows|
      ensures (RowBounds(rowBytes, y, |rows| + 1); RowAt(after, rowBytes, y) == rows[y])
    {
      RowBounds(rowBytes, y, |rows|);
      RowBounds(rowBytes, y, |rows| + 1);
      var lo := y * rowBytes;
      assert after[..|rows| * rowBytes][lo..lo + rowBytes] == before[..|rows| * rowBytes][lo..lo + rowBytes];
      assert after[lo..lo + rowBytes] == before[lo..lo + rowBytes];
      assert RowAt(before, rowBytes, y) == rows[y];
    }
  }

  /** `all` is `done` followed by what is still to come. */
  ghost predicate Continues(all: Option<seq<seq<byte>>>, done: seq<seq<byte>>, rest: Option<seq<seq<byte>>>)
  {
    match rest
    case None => all.None?
    case Some(rows) => all == Some(done + rows)
  }

  lemma ContinuesAtStart(all: Option<seq<seq<byte>>>)
    ensures Continues(all, [], all)
  {
    assert all.Some? ==> [] + all.value == all.value;
  }

  lemma ContinuesAtEnd(all: Option<seq<seq<byte>>>, done: seq<seq<byte>>, src: seq<byte>, prev: seq<byte>, bpp: nat)
    requires bpp > 0 && Continues(all, done, UnfilterRows(src, |prev|, 0, prev, bpp))
    ensures all == Some(done)
  {
    assert done + [] == done;
  }

  lemma ContinuesAfterRow(all: Option<seq<seq<byte>>>, done: seq<seq<byte>>, src: seq<byte>, at: nat,
                          rowBytes: nat, height: nat, prev: seq<byte>, bpp: nat)
    requires |prev| == rowBytes && bpp > 0 && height > 0
    requires at + rowBytes + 1 <= |src| && |src| - at >= (rowBytes + 1) * height
    requires |src| - at - rowBytes - 1 >= (rowBytes + 1) * (height - 1)
    requires Continues(all, done, UnfilterRows(src[at..], rowBytes, height, prev, bpp))
    ensures src[at] > 4 && rowBytes > 0 ==> all.None?
    ensures src[at] <= 4 || rowBytes == 0 ==>
              var row := UnfilterPrefix(src[at], src[at + 1..at + 1 + rowBytes], prev, bpp, rowBytes);
              Continues(all, done + [row], UnfilterRows(src[at + 1 + rowBytes..], rowBytes, height - 1, row, bpp))
  {
    hide UnfilterPrefix;
    var rest := src[at..];
    assert rest[1..rowBytes + 1] == src[at + 1..at + 1 + rowBytes];
    assert rest[rowBytes + 1..] == src[at + 1 + rowBytes..];
    if src[at] <= 4 || rowBytes == 0 {
      var row := UnfilterPrefix(src[at], src[at + 1..at + 1 + rowBytes], prev, bpp, rowBytes);
      var more := UnfilterRows(src[at + 1 + rowBytes..], rowBytes, height - 1, row, bpp);
      if more.Some? {
        assert done + ([row] + more.value) == done + [row] + more.value;
      }
    }
  }

  /** What is left of the source, `left` rows from `at` on, completes `done` to `all`. */
  ghost predicate Pending(all: Option<seq<seq<byte>>>, done: seq<seq<byte>>, src: seq<byte>, at: nat,
                          rowBytes: nat, left: nat, prev: seq<byte>, bpp: nat)
  {
    && bpp > 0 && |prev| == rowBytes && at <= |src| && |src| - at >= (rowBytes + 1) * left
    && Continues(all, done, UnfilterRows(src[at..], rowBytes, left, prev, bpp))
  }

  lemma PendingAtStart(all: Option<seq<seq<byte>>>, src: seq<byte>, rowBytes: nat, height: nat, bpp: nat)
    requires bpp > 0 && |src| >= (rowBytes + 1) * height
    requires all == UnfilterRows(src, rowBytes, height, Zeros(rowBytes), bpp)
    ensures Pending(all, [], src, 0, rowBytes, height, Zeros(rowBytes), bpp)
  {
    hide UnfilterRows;
    ContinuesAtStart(all);
    assert src[0..] == src;
  }

  lemma PendingRow(all: Option<seq<seq<byte>>>, done: seq<seq<byte>>, src: seq<byte>, at: nat,
                   rowBytes: nat, left: nat, prev: seq<byte>, bpp: nat)
    requires left > 0 && Pending(all, done, src, at, rowBytes, left, prev, bpp)
    ensures at + 1 + rowBytes <= |src|
    ensures src[at] <= 4 || rowBytes == 0 ==>
              var row := UnfilterPrefix(src[at], src[at + 1..at + 1 + rowBytes], prev, bpp, rowBytes);
              Pending(all, done + [row], src, at + 1 + rowBytes, rowBytes, left - 1, row, bpp)
  {
    hide UnfilterPrefix, UnfilterRows, Continues;
    OneMoreTime(left - 1, rowBytes + 1);
    TimesGrows(0, left - 1, rowBytes + 1);
    ContinuesAfterRow(all, done, src, at, rowBytes, left, prev, bpp);
  }

  lemma PendingUnknown(all: Option<seq<seq<byte>>>, done: seq<seq<byte>>, src: seq<byte>, at: nat,
                       rowBytes: nat, left: nat, prev: seq<byte>, bpp: nat)
    requires left > 0 && Pending(all, done, src, at, rowBytes, left, prev, bpp)
    requires at < |src| && src[at] > 4 && rowBytes > 0
    ensures all.None?
  {
    hide UnfilterPrefix, UnfilterRows, Continues;
    OneMoreTime(left - 1, rowBytes + 1);
    TimesGrows(0, left - 1, rowBytes + 1);
    ContinuesAfterRow(all, done, src, at, rowBytes, left, prev, bpp);
  }

  lemma PendingAtEnd(all: Option<seq<seq<byte>>>, done: seq<seq<byte>>, src: seq<byte>, at: nat,
                     rowBytes: nat, prev: seq<byte>, bpp: nat)
    requires Pending(all, done, src, at, rowBytes, 0, prev, bpp)
    ensures all == Some(done)
  {
    ContinuesAtEnd(all, done, src[at..], prev, bpp);
  }

  /** The rows done lie in the buffer, the last of them right before `base`. */
  ghost predicate Filled(s: seq<byte>, rowBytes: nat, done: seq<seq<byte>>, base: nat, prev: seq<byte>)
  {
    && base == |done| * rowBytes && HoldsRows(s, rowBytes, done)
    && (done != [] ==> prev == done[|done| - 1])
  }

  lemma FilledAtStart(s: seq<byte>, rowBytes: nat)
    ensures Filled(s, rowBytes, [], 0, Zeros(rowBytes))
  {}

  lemma FilledSoFar(s: seq<byte>, rowBytes: nat, done: seq<seq<byte>>, base: nat, prev: seq<byte>, height: nat)
    requires Filled(s, rowBytes, done, base, prev) && |done| < height && |s| >= height * rowBytes
    ensures base + rowBytes <= |s|
    ensures done != [] ==> rowBytes <= base && s[base - rowBytes..base] == prev
  {
    RowBounds(rowBytes, |done|, height);
    if done != [] {
      RowBounds(rowBytes, |done| - 1, |done|);
      HeldRow(s, rowBytes, done, |done| - 1);
    }
  }

  lemma FilledOneMore(before: seq<byte>, after: seq<byte>, rowBytes: nat, done: seq<seq<byte>>, base: nat,
                      prev: seq<byte>, row: seq<byte>)
    requires Filled(before, rowBytes, done, base, prev) && |after| == |before| && base + rowBytes <= |after|
    requires after[..base] == before[..base] && |row| == rowBytes && after[base..base + rowBytes] == row
    ensures Filled(after, rowBytes, done + [row], base + rowBytes, row)
  {
    hide HoldsRows;
    OneMoreTime(|done|, rowBytes);
    HoldsOneMore(before, after, rowBytes, done, row);
  }

  lemma FilledHolds(s: seq<byte>, rowBytes: nat, done: seq<seq<byte>>, base: nat, prev: seq<byte>)
    requires Filled(s, rowBytes, done, base, prev)
    ensures HoldsRows(s, rowBytes, done)
  {}

  /** One row: memcpy, then the predictions added in place. */
  method NextRow(dst: array<byte>, base: nat, f: byte, line: seq<byte>, hasPrev: bool, ghost prev: seq<byte>,
                 bpp: nat) returns (ok: bool)
    requires bpp > 0 && base + |line| <= dst.Length && |prev| == |line|
    requires if hasPrev then base >= |line| && dst[base - |line|..base] == prev else prev == Zeros(|line|)
    modifies dst
    ensures ok <==> f <= 4 || line == []
    ensures ok ==> dst[base..base + |line|] == UnfilterPrefix(f, line, prev, bpp, |line|)
    ensures dst[..base] == old(dst[..base])
  {
    hide UnfilterPrefix;
    ghost var before := dst[..];
    CopyLine(dst, base, line);
    assert dst[base..base + |line|] == line;
    assert dst[..base] == before[..base];
    assert hasPrev ==> dst[base - |line|..base] == before[base - |line|..base];
    ok := UnfilterRowInPlace(dst, base, f, line, |line|, hasPrev, prev, bpp);
  }

  /**
   * unfilter_png: dst holds the rows one behind the other; each is copied from src and then
   * unfiltered in place, reading the row above where it lies in dst.
   */
  method UnfilterPng(dst: array<byte>, src: seq<byte>, rowBytes: nat, height: nat, bpp: nat)
    returns (ok: bool)
    requires bpp > 0 && |src| >= (rowBytes + 1) * height && dst.Length >= height * rowBytes
    modifies dst
    ensures ok <==> UnfilterRows(src, rowBytes, height, Zeros(rowBytes), bpp).Some?
    ensures ok ==> HoldsRows(dst[..], rowBytes, UnfilterRows(src, rowBytes, height, Zeros(rowBytes), bpp).value)
  {
    hide UnfilterPrefix, UnfilterRows, Pending, Filled;
    ghost var all := UnfilterRows(src, rowBytes, height, Zeros(rowBytes), bpp);
    ghost var done: seq<seq<byte>> := [];
    ghost var prev := Zeros(rowBytes);
    var at: nat, base: nat := 0, 0;
    PendingAtStart(all, src, rowBytes, height, bpp);
    FilledAtStart(dst[..], rowBytes);
    for y := 0 to height
      invariant |done| == y && |prev| == rowBytes && (y == 0 ==> prev == Zeros(rowBytes))
      invariant Filled(dst[..], rowBytes, done, base, prev)
      invariant Pending(all, done, src, at, rowBytes, height - y, prev, bpp)
    {
      ghost var before := dst[..];
      FilledSoFar(before, rowBytes, done, base, prev, height);
      PendingRow(all, done, src, at, rowBytes, height - y, prev, bpp);
      var f := src[at];
      var line := src[at + 1..at + 1 + rowBytes];
      var known := NextRow(dst, base, f, line, y > 0, prev, bpp);
      if !known {
        PendingUnknown(all, done, src, at, rowBytes, height - y, prev, bpp);
        return false;
      }
      ghost var row := dst[base..base + rowBytes];
      FilledOneMore(before, dst[..], rowBytes, done, base, prev, row);
      done, prev := done + [row], row;
      at, base := at + 1 + rowBytes, base + rowBytes;
    }
    PendingAtEnd(all, done, src, at, rowBytes, prev, bpp);
    FilledHolds(dst[..], rowBytes, done, base, prev);
    ok := true;
  }
}
