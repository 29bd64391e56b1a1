/**
 * The ROM loader's choice of an archive entry, from a whole archive in memory and from a file
 * of which only the tail and the directory are read.
 */
module ZipSelect {
  import opened Bytes
  import opened ByteFiles
  import opened ZipDirectory
  import opened ZipFormat
  import ZipReader

  const MAX_UNCOMPRESSED := 64 * 1024 * 1024
  const MAX_DIRECTORY := 4 * 1024 * 1024
  const NAME_BUFFER := 256
  const BAR: byte := 0x7c

  /** struct zip_rom_entry, its name as the C string in the buffer. */
  datatype RomEntry = RomEntry(name: seq<byte>, flags: u16, scheme: u16, crc: u32,
                               compressedSize: u32, uncompressedSize: u32, localOffset: u32)

  // ------------------------------------------------------------ file names

  /** The last position of c in s, as strrchr finds it. */
  function LastIndex(s: seq<byte>, c: byte): (r: Option<nat>)
    ensures r.Some? ==> r.value < |s| && s[r.value] == c && c !in s[r.value + 1..]
    ensures r.None? ==> c !in s
  {
    if s == [] then None
    else if s[|s| - 1] == c then Some(|s| - 1)
    else LastIndex(s[..|s| - 1], c)
  }

  /** path_extension: what follows the last dot of the last component. */
  function PathExtension(path: seq<byte>): (r: Option<seq<byte>>)
    ensures r.Some? ==> r.value != []
  {
    var slash, dot := LastIndex(path, SLASH), LastIndex(path, DOT);
    if dot.None? || (slash.Some? && dot.value < slash.value) || dot.value + 1 == |path| then None
    else Some(path[dot.value + 1..])
  }

  function Lower(c: byte): byte { if 0x41 <= c <= 0x5a then c + 0x20 else c }

  /** strcasecmp and strncasecmp of equally long strings. */
  predicate SameIgnoringCase(a: seq<byte>, b: seq<byte>)
  {
    |a| == |b| && forall k :: 0 <= k < |a| ==> Lower(a[k]) == Lower(b[k])
  }

  const ZIP: seq<byte> := [0x7a, 0x69, 0x70]
  const LZ4: seq<byte> := [0x6c, 0x7a, 0x34]
  const ZST: seq<byte> := [0x7a, 0x73, 0x74]
  const ZSTD: seq<byte> := [0x7a, 0x73, 0x74, 0x64]

  predicate IsArchiveExtension(ext: seq<byte>)
  {
    SameIgnoringCase(ext, ZIP) || SameIgnoringCase(ext, LZ4) ||
    SameIgnoringCase(ext, ZST) || SameIgnoringCase(ext, ZSTD)
  }

  predicate IsBar(c: byte) { c == BAR }

  /** item is ext behind any number of leading dots. */
  ghost predicate ListItemMatches(item: seq<byte>, ext: seq<byte>)
  {
    exists d: nat :: d <= |item| && (forall k :: 0 <= k < d ==> item[k] == DOT) &&
                     (d < |item| ==> item[d] != DOT) && SameIgnoringCase(item[d..], ext)
  }

  /** A name is acceptable when its extension is no archive's and stands in the core's list, if any. */
  ghost predicate ExtensionAccepted(path: seq<byte>, valid: seq<byte>)
  {
    && PathExtension(path).Some?
    && var ext := PathExtension(path).value;
       && !IsArchiveExtension(ext)
       && (valid == [] ||
           exists i: nat, j: nat :: Component(valid, IsBar, i, j) && ListItemMatches(valid[i..j], ext))
  }

  // ------------------------------------------------------------- selection

  /** The name as it arrives in the 256-octet buffer. */
  function BufferedName(zip: seq<byte>, cursor: nat): seq<byte>
    requires cursor + CENTRAL_FIXED <= |zip| && cursor + RecordSize(zip, cursor) <= |zip|
  {
    var name := RecordName(zip, cursor);
    CString(if |name| >= NAME_BUFFER then name[..NAME_BUFFER - 1] else name)
  }

  ghost predicate Eligible(zip: seq<byte>, cursor: nat, valid: seq<byte>)
    requires cursor + CENTRAL_FIXED <= |zip| && cursor + RecordSize(zip, cursor) <= |zip|
  {
    && !IsDirectoryName(BufferedName(zip, cursor))
    && (Get16(zip, cursor + 10) == STORED || Get16(zip, cursor + 10) == DEFLATED)
    && Get16(zip, cursor + 8) % 2 == 0
    && 0 < Get32(zip, cursor + 24) <= MAX_UNCOMPRESSED
    && ExtensionAccepted(BufferedName(zip, cursor), valid)
  }

  function EntryAt(zip: seq<byte>, cursor: nat): RomEntry
    requires cursor + CENTRAL_FIXED <= |zip| && cursor + RecordSize(zip, cursor) <= |zip|
  {
    RomEntry(BufferedName(zip, cursor), Get16(zip, cursor + 8), Get16(zip, cursor + 10),
             Get32(zip, cursor + 16), Get32(zip, cursor + 20), Get32(zip, cursor + 24),
             Get32(zip, cursor + 42))
  }

  /** The first eligible record of a walk that only stays inside the archive. */
  ghost function WholeWalk(zip: seq<byte>, cursor: nat, count: nat, valid: seq<byte>): Option<RomEntry>
    decreases count
  {
    if count == 0 || cursor + CENTRAL_FIXED > |zip| then None
    else if Get32(zip, cursor) != CENTRAL_SIGNATURE then None
    else if cursor + RecordSize(zip, cursor) > |zip| then None
    else if Eligible(zip, cursor, valid) then Some(EntryAt(zip, cursor))
    else WholeWalk(zip, cursor + RecordSize(zip, cursor), count - 1, valid)
  }

  /** The first eligible record of a walk over the directory alone. */
  ghost function StreamWalk(cd: seq<byte>, zipSize: nat, cursor: nat, count: nat, valid: seq<byte>)
    : Option<RomEntry>
    decreases count
  {
    if count == 0 || cursor + CENTRAL_FIXED > |cd| then None
    else if Get32(cd, cursor) != CENTRAL_SIGNATURE then None
    else if Get32(cd, cursor + 42) >= zipSize then None
    else if cursor + RecordSize(cd, cursor) > |cd| then None
    else if Eligible(cd, cursor, valid) then Some(EntryAt(cd, cursor))
    else StreamWalk(cd, zipSize, cursor + RecordSize(cd, cursor), count - 1, valid)
  }

  /** Every record a walk looks at ends inside zip[..limit] and points into the file. */
  ghost predicate Confined(zip: seq<byte>, limit: nat, cursor: nat, count: nat, valid: seq<byte>)
    requires limit <= |zip|
    decreases count
  {
    count == 0 || (
      && cursor + CENTRAL_FIXED <= limit
      && cursor + RecordSize(zip, cursor) <= limit
      && Get32(zip, cursor + 42) < |zip|
      && (Eligible(zip, cursor, valid) ||
          Confined(zip, limit, cursor + RecordSize(zip, cursor), count - 1, valid)))
  }

  /** zip_select_rom_entry. */
  ghost function SelectWhole(zip: seq<byte>, valid: seq<byte>): Option<RomEntry>
  {
    if |zip| < END_MIN then None
    else
      match FindEnd(zip, |zip| - END_MIN, LowestEnd(|zip|))
      case None => None
      case Some(e) =>
        if Get32(zip, e + 16) + Get32(zip, e + 12) > |zip| then None
        else WholeWalk(zip, Get32(zip, e + 16), Get16(zip, e + 10), valid)
  }

  /** zip_select_rom_entry_stream. */
  ghost function SelectStream(zip: seq<byte>, valid: seq<byte>): Option<RomEntry>
  {
    match EndPosition(zip)
    case None => None
    case Some(e) =>
      var size, offset := Get32(zip, e + 12), Get32(zip, e + 16);
      if offset + size > |zip| || size == 0 || size > MAX_DIRECTORY then None
      else StreamWalk(zip[offset..offset + size], |zip|, 0, Get16(zip, e + 10), valid)
  }

  // --------------------------------------------------- a bounded size type

  const RECORD_MAX := CENTRAL_FIXED + 3 * 0xffff

  /** The answer of the whole-archive form; Strayed is a read outside the archive. */
  datatype Selection = Selected(entry: RomEntry) | NotFound | Strayed

  function Answer(entry: Option<RomEntry>): Selection
  {
    match entry
    case Some(e) => Selected(e)
    case None => NotFound
  }

  /** A sum in a size type of word values. */
  function Wrapped(sum: nat, word: nat): nat
    requires 0 < word
  {
    sum % word
  }

  /** The walk with sums that wrap. */
  ghost function WrappingWalk(zip: seq<byte>, cursor: nat, count: nat, valid: seq<byte>, word: nat): Selection
    requires 0 < word
    decreases count
  {
    if count == 0 || Wrapped(cursor + CENTRAL_FIXED, word) > |zip| then NotFound
    else if cursor + CENTRAL_FIXED > |zip| then Strayed
    else if Get32(zip, cursor) != CENTRAL_SIGNATURE then NotFound
    else if Wrapped(cursor + RecordSize(zip, cursor), word) > |zip| then NotFound
    else if cursor + RecordSize(zip, cursor) > |zip| then Strayed
    else if Eligible(zip, cursor, valid) then Selected(EntryAt(zip, cursor))
    else WrappingWalk(zip, Wrapped(cursor + RecordSize(zip, cursor), word), count - 1, valid, word)
  }

  /** zip_select_rom_entry over a size type of word values. */
  ghost function SelectWrapping(zip: seq<byte>, valid: seq<byte>, word: nat): Selection
    requires 0 < word
  {
    if |zip| < END_MIN then NotFound
    else
      match FindEnd(zip, |zip| - END_MIN, LowestEnd(|zip|))
      case None => NotFound
      case Some(e) =>
        if Wrapped(Get32(zip, e + 16) + Get32(zip, e + 12), word) > |zip| then NotFound
        else WrappingWalk(zip, Get32(zip, e + 16), Get16(zip, e + 10), valid, word)
  }

  /** From inside the archive the sums of the walk do not wrap. */
  lemma {:induction false} WalkDoesNotWrap(zip: seq<byte>, cursor: nat, count: nat, valid: seq<byte>, word: nat)
    requires |zip| + RECORD_MAX <= word && cursor + CENTRAL_FIXED < word
    ensures WrappingWalk(zip, cursor, count, valid, word) == Answer(WholeWalk(zip, cursor, count, valid))
    decreases count
  {
    hide Eligible;
    hide EntryAt;
    hide RecordSize;
    hide Get32;
    NoWrap(cursor + CENTRAL_FIXED, word);
    if count != 0 && cursor + CENTRAL_FIXED <= |zip| {
      RecordSizeBound(zip, cursor);
      NoWrap(cursor + RecordSize(zip, cursor), word);
      if cursor + RecordSize(zip, cursor) <= |zip| {
        WalkDoesNotWrap(zip, cursor + RecordSize(zip, cursor), count - 1, valid, word);
      }
    }
  }

  lemma NoWrap(sum: nat, word: nat)
    requires sum < word
    ensures Wrapped(sum, word) == sum
  {}

  lemma RecordSizeBound(zip: seq<byte>, cursor: nat)
    requires cursor + CENTRAL_FIXED <= |zip|
    ensures RecordSize(zip, cursor) <= RECORD_MAX
  {
    hide Get16;
  }

  /** The directory fields of the end record: offset, size and count. */
  predicate EndSays(zip: seq<byte>, offset: nat, size: nat, count: nat)
  {
    && |zip| >= END_MIN
    && var e := FindEnd(zip, |zip| - END_MIN, LowestEnd(|zip|));
       && e.Some?
       && Get32(zip, e.value + 16) == offset && Get32(zip, e.value + 12) == size && Get16(zip, e.value + 10) == count
  }

  /** The range test passes over an offset so high that even the first record's end wraps. */
  predicate Wraps(zip: seq<byte>, offset: nat, size: nat, count: nat, word: nat)
    requires 0 < word
  {
    && count > 0 && Wrapped(offset + size, word) <= |zip|
    && word <= offset + CENTRAL_FIXED && offset + CENTRAL_FIXED - word <= |zip|
  }

  /** The end record found, if any, states such an offset. */
  predicate DirectoryWraps(zip: seq<byte>, word: nat)
    requires 0 < word
  {
    && |zip| >= END_MIN
    && var e := FindEnd(zip, |zip| - END_MIN, LowestEnd(|zip|));
       e.Some? &&
       Wraps(zip, Get32(zip, e.value + 16), Get32(zip, e.value + 12), Get16(zip, e.value + 10), word)
  }

  /**
   * When every read stays inside the archive: unless the directory begins within the last 46 values
   * of the size type and the wrapped sums pass both tests. One record of the largest size must fit
   * the size type beside the archive.
   */
  lemma ReadsStayInsideIff(zip: seq<byte>, valid: seq<byte>, word: nat)
    requires 0x1_0000_0000 <= word && |zip| + RECORD_MAX <= word
    ensures SelectWrapping(zip, valid, word).Strayed? <==> DirectoryWraps(zip, word)
  {
    hide Get16;
    hide Get32;
    hide FindEnd;
    hide WholeWalk;
    hide WrappingWalk;
    if |zip| >= END_MIN {
      var e := FindEnd(zip, |zip| - END_MIN, LowestEnd(|zip|));
      if e.Some? { FirstRecordStrays(zip, Get32(zip, e.value + 16), Get16(zip, e.value + 10), valid, word); }
    }
  }

  lemma FirstRecordStrays(zip: seq<byte>, offset: nat, count: nat, valid: seq<byte>, word: nat)
    requires offset < 0x1_0000_0000 <= word && |zip| + RECORD_MAX <= word
    ensures WrappingWalk(zip, offset, count, valid, word).Strayed? <==>
            count > 0 && word <= offset + CENTRAL_FIXED && offset + CENTRAL_FIXED - word <= |zip|
  {
    if offset + CENTRAL_FIXED < word {
      hide WrappingWalk;
      WalkDoesNotWrap(zip, offset, count, valid, word);
    } else {
      hide *;
      WrapsOnce(offset + CENTRAL_FIXED, word);
      StraysAtOnce(zip, offset, count, valid, word);
    }
  }

  lemma WrapsOnce(sum: nat, word: nat)
    requires word <= sum < 2 * word
    ensures Wrapped(sum, word) == sum - word
  {
    assert sum == word + (sum - word);
  }

  lemma StraysAtOnce(zip: seq<byte>, cursor: nat, count: nat, valid: seq<byte>, word: nat)
    requires 0 < word <= cursor + CENTRAL_FIXED && |zip| < word
    ensures WrappingWalk(zip, cursor, count, valid, word).Strayed? <==>
            count > 0 && Wrapped(cursor + CENTRAL_FIXED, word) <= |zip|
  {
    hide Get32, Eligible, EntryAt, RecordSize, Wrapped;
  }

  /** Where the range test does not wrap, the bounded form is the plain one. */
  lemma WrappingIsWhole(zip: seq<byte>, valid: seq<byte>, word: nat, offset: nat, size: nat, count: nat)
    requires 0x1_0000_0000 <= word && |zip| + RECORD_MAX <= word && EndSays(zip, offset, size, count)
    requires offset + size < word
    ensures SelectWrapping(zip, valid, word) == Answer(SelectWhole(zip, valid))
  {
    hide Get16;
    hide Get32;
    hide FindEnd;
    hide WholeWalk;
    hide WrappingWalk;
    NoWrap(offset + size, word);
    if offset + size <= |zip| { WalkDoesNotWrap(zip, offset, count, valid, word); }
  }

  // ------------------------------------------------------------ refinement

  /** A record read in the directory or in the whole archive is the same record. */
  lemma RecordOfSlice(zip: seq<byte>, lo: nat, hi: nat, cursor: nat)
    requires lo <= hi <= |zip| && cursor + CENTRAL_FIXED <= hi - lo
    ensures var cd := zip[lo..hi];
            && Get32(cd, cursor) == Get32(zip, lo + cursor)
            && Get16(cd, cursor + 8) == Get16(zip, lo + cursor + 8)
            && Get16(cd, cursor + 10) == Get16(zip, lo + cursor + 10)
            && Get32(cd, cursor + 16) == Get32(zip, lo + cursor + 16)
            && Get32(cd, cursor + 20) == Get32(zip, lo + cursor + 20)
            && Get32(cd, cursor + 24) == Get32(zip, lo + cursor + 24)
            && Get32(cd, cursor + 42) == Get32(zip, lo + cursor + 42)
            && Get16(cd, cursor + 28) == Get16(zip, lo + cursor + 28)
            && RecordSize(cd, cursor) == RecordSize(zip, lo + cursor)
  {
    FieldOfSlice(zip, lo, hi, cursor + 28);
    FieldOfSlice(zip, lo, hi, cursor + 30);
    FieldOfSlice(zip, lo, hi, cursor + 32);
  }

  lemma EligibleInSlice(zip: seq<byte>, lo: nat, hi: nat, cursor: nat, valid: seq<byte>)
    requires lo <= hi <= |zip| && cursor + CENTRAL_FIXED <= hi - lo
    requires RecordSize(zip, lo + cursor) == RecordSize(zip[lo..hi], cursor) <= hi - lo - cursor
    ensures Eligible(zip[lo..hi], cursor, valid) == Eligible(zip, lo + cursor, valid)
    ensures EntryAt(zip[lo..hi], cursor) == EntryAt(zip, lo + cursor)
  {
    RecordOfSlice(zip, lo, hi, cursor);
    NameOfSlice(zip, lo, hi, cursor);
    hide Get16, Get32, ExtensionAccepted, RecordSize, BufferedName, IsDirectoryName;
  }

  lemma NameOfSlice(zip: seq<byte>, lo: nat, hi: nat, cursor: nat)
    requires lo <= hi <= |zip| && cursor + CENTRAL_FIXED <= hi - lo
    requires cursor + RecordSize(zip[lo..hi], cursor) <= hi - lo
    requires RecordSize(zip[lo..hi], cursor) == RecordSize(zip, lo + cursor)
    requires Get16(zip[lo..hi], cursor + 28) == Get16(zip, lo + cursor + 28)
    ensures BufferedName(zip[lo..hi], cursor) == BufferedName(zip, lo + cursor)
  {
    hide Get16, CString;
    var from, to := cursor + CENTRAL_FIXED, cursor + CENTRAL_FIXED + Get16(zip, lo + cursor + 28);
    SliceOfSlice(zip, lo, hi, from, to);
  }

  /**
   * The walk over the directory picks an entry exactly when the walk over the whole archive does
   * and never leaves the directory; it is then the same entry.
   */
  lemma {:induction false} StreamWalkRefines(zip: seq<byte>, lo: nat, hi: nat, cursor: nat, count: nat, valid: seq<byte>)
    requires lo <= hi <= |zip| && cursor <= hi - lo
    ensures StreamWalk(zip[lo..hi], |zip|, cursor, count, valid) ==
            if Confined(zip, hi, lo + cursor, count, valid) then WholeWalk(zip, lo + cursor, count, valid)
            else None
    decreases count
  {
    hide Eligible;
    hide EntryAt;
    hide RecordSize;
    hide Get32;
    hide Get16;
    var cd := zip[lo..hi];
    if count != 0 && cursor + CENTRAL_FIXED <= |cd| {
      RecordOfSlice(zip, lo, hi, cursor);
      if cursor + RecordSize(cd, cursor) <= |cd| {
        EligibleInSlice(zip, lo, hi, cursor, valid);
        StreamWalkRefines(zip, lo, hi, cursor + RecordSize(cd, cursor), count - 1, valid);
      }
    }
  }

  /** The search for the end record in the tail is the search in the whole archive. */
  lemma {:induction false} TailSearch(zip: seq<byte>, lo: nat, pos: nat)
    requires lo + pos + END_MIN <= |zip|
    ensures var inTail, inWhole := FindEnd(zip[lo..], pos, 0), FindEnd(zip, lo + pos, lo);
            && inTail.None? == inWhole.None?
            && (inTail.Some? ==> inWhole.value == lo + inTail.value)
    decreases pos
  {
    FieldOfSlice(zip, lo, |zip|, pos);
    FieldOfSlice(zip, lo, |zip|, pos + 20);
    hide Get16;
    hide Get32;
    if pos > 0 {
      TailSearch(zip, lo, pos - 1);
    }
  }

  lemma EndPositionIsWholeSearch(zip: seq<byte>)
    requires |zip| >= END_MIN
    ensures EndPosition(zip) == FindEnd(zip, |zip| - END_MIN, LowestEnd(|zip|))
  {
    hide EndAt;
    var lo := LowestEnd(|zip|);
    TailSearch(zip, lo, |zip| - END_MIN - lo);
  }

  /**
   * Streaming selection refines whole-archive selection: it picks an entry exactly when the
   * whole-archive form does, the directory's size is in 1..4 MiB, and the walk stays in the directory.
   */
  lemma StreamRefinesWhole(zip: seq<byte>, valid: seq<byte>)
    ensures SelectStream(zip, valid).Some? ==> SelectStream(zip, valid) == SelectWhole(zip, valid)
    ensures SelectStream(zip, valid).Some? <==>
              && SelectWhole(zip, valid).Some?
              && EndPosition(zip).Some?
              && var e := EndPosition(zip).value;
                 var size, offset := Get32(zip, e + 12), Get32(zip, e + 16);
                 && 0 < size <= MAX_DIRECTORY && offset + size <= |zip|
                 && Confined(zip, offset + size, offset, Get16(zip, e + 10), valid)
  {
    hide Get16;
    hide Get32;
    hide FindEnd;
    hide Confined;
    hide WholeWalk;
    hide StreamWalk;
    if |zip| >= END_MIN {
      EndPositionIsWholeSearch(zip);
      if EndPosition(zip).Some? {
        var e := EndPosition(zip).value;
        var size, offset := Get32(zip, e + 12), Get32(zip, e + 16);
        if offset + size <= |zip| {
          StreamWalkRefines(zip, offset, offset + size, 0, Get16(zip, e + 10), valid);
        }
      }
    }
  }

  // ----------------------------------------------------------------- loops

  method StrRChr(s: seq<byte>, c: byte) returns (at: Option<nat>)
    ensures at == LastIndex(s, c)
  {
    var i := |s|;
    assert s[..i] == s;
    while i > 0
      invariant i <= |s| && LastIndex(s[..i], c) == LastIndex(s, c)
    {
      assert s[..i][..i - 1] == s[..i - 1];
      if s[i - 1] == c {
        return Some(i - 1);
      }
      i := i - 1;
    }
    at := None;
  }

  lemma DotsAreDecided(item: seq<byte>, d: nat, ext: seq<byte>)
    requires d <= |item| && (forall k :: 0 <= k < d ==> item[k] == DOT)
    requires d < |item| ==> item[d] != DOT
    ensures ListItemMatches(item, ext) <==> SameIgnoringCase(item[d..], ext)
  {
    hide SameIgnoringCase;
    forall e: nat | e <= |item| && (forall k :: 0 <= k < e ==> item[k] == DOT) && (e < |item| ==> item[e] != DOT)
      ensures e == d
    {
      assert !(e < d) && !(d < e);
    }
  }

  /** libretro_valid_extension_matches. */
  method ValidExtensionMatches(path: seq<byte>, valid: seq<byte>) returns (ok: bool)
    ensures ok <==> ExtensionAccepted(path, valid)
  {
    hide LastIndex;
    var slash := StrRChr(path, SLASH);
    var dot := StrRChr(path, DOT);
    if dot.None? || (slash.Some? && dot.value < slash.value) || dot.value + 1 == |path| {
      return false;
    }
    var ext := path[dot.value + 1..];
    if IsArchiveExtension(ext) {
      return false;
    }
    if |valid| == 0 {
      return true;
    }
    ok := InExtensionList(ext, valid);
  }

  ghost predicate NoItemBefore(valid: seq<byte>, ext: seq<byte>, cursor: nat)
  {
    forall i: nat, j: nat :: Component(valid, IsBar, i, j) && (j < cursor || i < cursor) ==>
      !ListItemMatches(valid[i..j], ext)
  }

  /** An item that does not match leaves only later ones. */
  lemma ItemPassed(valid: seq<byte>, ext: seq<byte>, begin: nat, end: nat)
    requires NoItemBefore(valid, ext, begin) && Component(valid, IsBar, begin, end)
    requires !ListItemMatches(valid[begin..end], ext)
    ensures NoItemBefore(valid, ext, if end < |valid| then end + 1 else end)
  {
    hide ListItemMatches;
    var next := if end < |valid| then end + 1 else end;
    forall i: nat, j: nat | Component(valid, IsBar, i, j) && (j < next || i < next)
      ensures !ListItemMatches(valid[i..j], ext)
    {
      assert i < begin || j < begin || (i == begin && j == end);
    }
  }

  lemma NoItemLeft(valid: seq<byte>, ext: seq<byte>)
    requires ext != [] && NoItemBefore(valid, ext, |valid|)
    ensures forall i: nat, j: nat :: Component(valid, IsBar, i, j) ==> !ListItemMatches(valid[i..j], ext)
  {
    hide ListItemMatches;
    forall i: nat, j: nat | Component(valid, IsBar, i, j) ensures !ListItemMatches(valid[i..j], ext) {
      if i == |valid| {
        DotsAreDecided([], 0, ext);
        assert valid[i..j] == [];
      }
    }
  }

  /** The scan of the list: items end at a bar, leading dots are skipped. */
  method InExtensionList(ext: seq<byte>, valid: seq<byte>) returns (ok: bool)
    requires ext != []
    ensures ok <==> exists i: nat, j: nat :: Component(valid, IsBar, i, j) && ListItemMatches(valid[i..j], ext)
  {
    hide ListItemMatches;
    var cursor := 0;
    NothingBefore(valid, ext);
    while cursor < |valid|
      invariant 0 <= cursor <= |valid|
      invariant cursor == 0 || IsBar(valid[cursor - 1]) || cursor == |valid|
      invariant NoItemBefore(valid, ext, cursor)
    {
      hide NoItemBefore;
      var end, matches := ScanItem(ext, valid, cursor);
      if matches {
        return true;
      }
      ItemPassed(valid, ext, cursor, end);
      cursor := if end < |valid| then end + 1 else end;
    }
    NoItemLeft(valid, ext);
    ok := false;
  }

  lemma NothingBefore(valid: seq<byte>, ext: seq<byte>)
    ensures NoItemBefore(valid, ext, 0)
  {}

  /** One item of the list. */
  method ScanItem(ext: seq<byte>, valid: seq<byte>, begin: nat) returns (end: nat, matches: bool)
    requires begin < |valid| && (begin == 0 || IsBar(valid[begin - 1]))
    ensures Component(valid, IsBar, begin, end) && (matches <==> ListItemMatches(valid[begin..end], ext))
  {
    hide ListItemMatches;
    end := begin;
    while end < |valid| && valid[end] != BAR
      invariant begin <= end <= |valid|
      invariant forall k :: begin <= k < end ==> !IsBar(valid[k])
    {
      end := end + 1;
    }
    var dots := begin;
    while dots < end && valid[dots] == DOT
      invariant begin <= dots <= end
      invariant forall k :: begin <= k < dots ==> valid[k] == DOT
    {
      dots := dots + 1;
    }
    DotsAreDecided(valid[begin..end], dots - begin, ext);
    SliceOfSlice(valid, begin, end, dots - begin, end - begin);
    assert valid[begin..end][dots - begin..] == valid[dots..end];
    matches := SameIgnoringCase(valid[dots..end], ext);
  }

  lemma {:induction false} CStringIs(s: seq<byte>, n: nat)
    requires n <= |s| && 0 !in s[..n] && (n < |s| ==> s[n] == 0)
    ensures CString(s) == s[..n]
    decreases n
  {
    if n > 0 {
      assert s[0] == s[..n][0];
      assert s[1..][..n - 1] == s[..n][1..];
      CStringIs(s[1..], n - 1);
      assert s[..n] == [s[0]] + s[1..][..n - 1];
    }
  }

  /** A terminated buffer as the C functions on it see it. */
  method ReadCString(buffer: seq<byte>) returns (name: seq<byte>)
    ensures name == CString(buffer)
  {
    hide CString;
    var length := 0;
    while length < |buffer| && buffer[length] != 0
      invariant length <= |buffer| && 0 !in buffer[..length]
    {
      length := length + 1;
    }
    CStringIs(buffer, length);
    name := buffer[..length];
  }

  /** memcpy into the name buffer and its terminator. */
  method BufferName(zip: seq<byte>, cursor: nat) returns (name: seq<byte>)
    requires cursor + CENTRAL_FIXED <= |zip| && cursor + RecordSize(zip, cursor) <= |zip|
    ensures name == BufferedName(zip, cursor)
  {
    hide CString;
    hide Get16;
    var nameLen := Get16(zip, cursor + 28);
    var copyLen := if nameLen >= NAME_BUFFER then NAME_BUFFER - 1 else nameLen;
    var start := cursor + CENTRAL_FIXED;
    SliceOfSlice(zip, start, start + nameLen, 0, copyLen);
    name := ReadCString(zip[start..start + copyLen]);
    assert RecordName(zip, cursor)[..copyLen] == zip[start..start + copyLen];
    assert RecordName(zip, cursor)[..nameLen] == RecordName(zip, cursor);
  }

  /** The test both selectors apply to a record. */
  method IsEligible(zip: seq<byte>, cursor: nat, name: seq<byte>, valid: seq<byte>) returns (ok: bool)
    requires cursor + CENTRAL_FIXED <= |zip| && cursor + RecordSize(zip, cursor) <= |zip|
    requires name == BufferedName(zip, cursor)
    ensures ok <==> Eligible(zip, cursor, valid)
  {
    hide ExtensionAccepted;
    hide BufferedName;
    var scheme := Get16(zip, cursor + 10);
    var uncompressedSize := Get32(zip, cursor + 24);
    if IsDirectoryName(name) || (scheme != STORED && scheme != DEFLATED) ||
       Get16(zip, cursor + 8) % 2 == 1 || uncompressedSize == 0 || uncompressedSize > MAX_UNCOMPRESSED {
      return false;
    }
    ok := ValidExtensionMatches(name, valid);
  }

  /** zip_select_rom_entry: the archive is in memory. */
  method SelectRomEntry(zip: seq<byte>, valid: seq<byte>, word: nat) returns (selected: Selection)
    requires 0 < word
    ensures selected == SelectWrapping(zip, valid, word)
  {
    hide Eligible;
    hide BufferedName;
    hide EndAt;
    hide FindEnd;
    var end := ZipReader.FindEocd(zip);
    if end.None? {
      return NotFound;
    }
    var e := end.value;
    EndHasRoom(zip);
    var entries := Get16(zip, e + 10);
    var cdSize: nat := Get32(zip, e + 12);
    var cdOffset: nat := Get32(zip, e + 16);
    if Wrapped(cdOffset + cdSize, word) > |zip| {
      return NotFound;
    }
    var cursor: nat, i: nat := cdOffset, 0;
    while i < entries && Wrapped(cursor + CENTRAL_FIXED, word) <= |zip|
      invariant i <= entries
      invariant WrappingWalk(zip, cursor, entries - i, valid, word) ==
                WrappingWalk(zip, cdOffset, entries, valid, word)
    {
      if cursor + CENTRAL_FIXED > |zip| {
        return Strayed;
      }
      if Get32(zip, cursor) != CENTRAL_SIGNATURE {
        return NotFound;
      }
      var recordLen := RecordSize(zip, cursor);
      if Wrapped(cursor + recordLen, word) > |zip| {
        return NotFound;
      }
      if cursor + recordLen > |zip| {
        return Strayed;
      }
      var name := BufferName(zip, cursor);
      var eligible := IsEligible(zip, cursor, name, valid);
      if eligible {
        return Selected(EntryAt(zip, cursor));
      }
      cursor, i := Wrapped(cursor + recordLen, word), i + 1;
    }
    selected := NotFound;
  }

  lemma EndHasRoom(zip: seq<byte>)
    requires |zip| >= END_MIN
    ensures var e := FindEnd(zip, |zip| - END_MIN, LowestEnd(|zip|));
            e.Some? ==> e.value + END_MIN <= |zip|
  {}

  /** zip_select_rom_entry_stream: only the tail and the directory are read. */
  method SelectRomEntryStream(file: ByteFile, valid: seq<byte>, word: nat) returns (selected: Option<RomEntry>)
    requires file.pos <= |file.data| && 0x1_0000_0000 <= word && |file.data| < word
    modifies file`pos
    ensures file.pos <= |file.data|
    ensures selected == SelectStream(file.data, valid)
  {
    hide EndPosition;
    hide StreamWalk;
    hide EndAt;
    var tail, end := ZipReader.ReadTail(file);
    if end.None? {
      return None;
    }
    var e := end.value;
    ZipReader.TailFields(file.data, |file.data| - |tail|, e);
    hide Get16;
    hide Get32;
    selected := SelectFromDirectory(file, Get32(tail, e + 16), Get32(tail, e + 12), Get16(tail, e + 10), valid, word);
  }

  /** The rest of it, from the fields of the end record on. */
  method SelectFromDirectory(file: ByteFile, cdOffset: nat, cdSize: nat, entries: nat, valid: seq<byte>, word: nat)
    returns (selected: Option<RomEntry>)
    requires file.pos <= |file.data| && |file.data| < word
    modifies file`pos
    ensures file.pos <= |file.data|
    ensures selected ==
            if cdOffset + cdSize > |file.data| || cdSize == 0 || cdSize > MAX_DIRECTORY then None
            else StreamWalk(file.data[cdOffset..cdOffset + cdSize], |file.data|, 0, entries, valid)
  {
    hide StreamWalk;
    hide Wrapped;
    var zipSize := |file.data|;
    if Wrapped(cdOffset + cdSize, word) > zipSize {
      RangeRefused(cdOffset + cdSize, zipSize, word);
      return None;
    }
    if cdSize == 0 || cdSize > MAX_DIRECTORY {
      return None;
    }
    // A read behind the end comes short, as does every one the wrapped sum lets through.
    if cdOffset > zipSize {
      return None;
    }
    file.pos := cdOffset;
    var cd := file.Read(cdSize);
    if |cd| != cdSize {
      return None;
    }
    selected := SelectInDirectory(cd, zipSize, entries, valid);
  }

  lemma RangeRefused(sum: nat, size: nat, word: nat)
    requires 0 < word && Wrapped(sum, word) > size
    ensures sum > size
  {
    if sum < word { NoWrap(sum, word); }
  }

  /** The directory walk of zip_select_rom_entry_stream. */
  method SelectInDirectory(cd: seq<byte>, zipSize: nat, entries: nat, valid: seq<byte>)
    returns (selected: Option<RomEntry>)
    ensures selected == StreamWalk(cd, zipSize, 0, entries, valid)
  {
    hide Eligible;
    hide BufferedName;
    var cursor: nat, i: nat := 0, 0;
    while i < entries && cursor + CENTRAL_FIXED <= |cd|
      invariant i <= entries && cursor <= |cd|
      invariant StreamWalk(cd, zipSize, cursor, entries - i, valid) == StreamWalk(cd, zipSize, 0, entries, valid)
    {
      if Get32(cd, cursor) != CENTRAL_SIGNATURE {
        return None;
      }
      if Get32(cd, cursor + 42) >= zipSize {
        return None;
      }
      var recordLen := RecordSize(cd, cursor);
      if recordLen > |cd| - cursor {
        return None;
      }
      var name := BufferName(cd, cursor);
      cursor := cursor + recordLen;
      var eligible := IsEligible(cd, cursor - recordLen, name, valid);
      if eligible {
        return Some(EntryAt(cd, cursor - recordLen));
      }
      i := i + 1;
    }
    selected := None;
  }
}
