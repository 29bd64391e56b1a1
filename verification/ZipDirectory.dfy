/** Which archives the ZIP reader accepts, which entries it then lists, and what that guarantees. */
module ZipDirectory {
  import opened Bytes
  import opened ZipFormat

  const STORED: u16 := 0
  const DEFLATED: u16 := 8

  /** zlib's raw inflate of a complete stream: the plain octets, or None for a bad stream. */
  type Inflater = seq<byte> -> Option<seq<byte>>

  /** What one central record and its local header say together. */
  datatype Scan = Scan(name: seq<byte>, dataOffset: nat, flags: u16, scheme: u16, crc: u32,
                       compressedSize: u32, uncompressedSize: u32, localOffset: u32, keep: bool)

  // ------------------------------------------------------- what is accepted

  predicate EndAt(zip: seq<byte>, pos: nat)
  {
    && pos + END_MIN <= |zip|
    && Get32(zip, pos) == END_SIGNATURE
    && pos + END_MIN + Get16(zip, pos + 20) == |zip|
  }

  /** The last position in low..pos where an end record reaches exactly to the end. */
  function FindEnd(zip: seq<byte>, pos: nat, low: nat): (r: Option<nat>)
    requires low <= pos && pos + END_MIN <= |zip|
    ensures r.Some? ==> low <= r.value <= pos && EndAt(zip, r.value)
    decreases pos
  {
    if EndAt(zip, pos) then Some(pos)
    else if pos == low then None
    else FindEnd(zip, pos - 1, low)
  }

  lemma {:induction false} FindEndIsLast(zip: seq<byte>, pos: nat, low: nat)
    requires low <= pos && pos + END_MIN <= |zip|
    ensures var r := FindEnd(zip, pos, low);
            forall k: nat :: (if r.Some? then r.value < k else low <= k) && k <= pos ==> !EndAt(zip, k)
    decreases pos
  {
    if !EndAt(zip, pos) && pos != low {
      FindEndIsLast(zip, pos - 1, low);
    }
  }

  /** How far down zip_find_eocd looks. */
  function LowestEnd(size: nat): nat
  {
    if size > END_SCAN_MAX then size - END_SCAN_MAX else 0
  }

  predicate WithinFile(offset: nat, length: nat, fileSize: nat) { offset + length <= fileSize }

  /** The checks zip_scan_entry makes on the central record at `cursor`. */
  ghost predicate CentralOk(cd: seq<byte>, cursor: nat)
  {
    && cursor + CENTRAL_FIXED <= |cd|
    && Get32(cd, cursor) == CENTRAL_SIGNATURE
    && Get32(cd, cursor + 20) != 0xffff_ffff
    && Get32(cd, cursor + 24) != 0xffff_ffff
    && Get32(cd, cursor + 42) != 0xffff_ffff
    && cursor + RecordSize(cd, cursor) <= |cd|
    && Get16(cd, cursor + 8) % 2 == 0
    && ReaderSafe(RecordName(cd, cursor))
    && (Get16(cd, cursor + 10) == STORED ==> Get32(cd, cursor + 20) == Get32(cd, cursor + 24))
  }

  function RecordSize(cd: seq<byte>, cursor: nat): nat
    requires cursor + CENTRAL_FIXED <= |cd|
  {
    CENTRAL_FIXED + Get16(cd, cursor + 28) + Get16(cd, cursor + 30) + Get16(cd, cursor + 32)
  }

  function RecordName(cd: seq<byte>, cursor: nat): seq<byte>
    requires cursor + CENTRAL_FIXED <= |cd| && cursor + RecordSize(cd, cursor) <= |cd|
  {
    cd[cursor + CENTRAL_FIXED..cursor + CENTRAL_FIXED + Get16(cd, cursor + 28)]
  }

  /** The checks on the local header that a central record points to. */
  predicate LocalOk(zip: seq<byte>, at: nat, name: seq<byte>, scheme: u16, compressedSize: nat)
  {
    && WithinFile(at, LOCAL_FIXED, |zip|)
    && Get32(zip, at) == LOCAL_SIGNATURE
    && Get16(zip, at + 6) % 2 == 0
    && Get16(zip, at + 8) == scheme
    && Get16(zip, at + 26) == |name|
    && WithinFile(at + LOCAL_FIXED, |name|, |zip|)
    && zip[at + LOCAL_FIXED..at + LOCAL_FIXED + |name|] == name
    && WithinFile(DataOffset(zip, at), compressedSize, |zip|)
  }

  function DataOffset(zip: seq<byte>, at: nat): nat
    requires at + LOCAL_FIXED <= |zip|
  {
    at + LOCAL_FIXED + Get16(zip, at + 26) + Get16(zip, at + 28)
  }

  /** zip_scan_entry: the entry at `cursor` and the cursor behind it, or None. */
  ghost function ScanAt(zip: seq<byte>, cd: seq<byte>, cursor: nat): (r: Option<(Scan, nat)>)
  {
    if !CentralOk(cd, cursor) then None
    else
      var name := RecordName(cd, cursor);
      var scheme := Get16(cd, cursor + 10);
      var at := Get32(cd, cursor + 42);
      if !LocalOk(zip, at, name, scheme, Get32(cd, cursor + 20)) then None
      else
        Some((Scan(name, DataOffset(zip, at), Get16(cd, cursor + 8), scheme, Get32(cd, cursor + 16),
                   Get32(cd, cursor + 20), Get32(cd, cursor + 24), at,
                   !IsDirectoryName(name) && (scheme == STORED || scheme == DEFLATED)),
              cursor + RecordSize(cd, cursor)))
  }

  /** The walk over `count` records from `cursor`: the kept entries and the final cursor. */
  ghost function Walk(zip: seq<byte>, cd: seq<byte>, cursor: nat, count: nat): (r: Option<(seq<Scan>, nat)>)
    decreases count
  {
    if count == 0 then Some(([], cursor))
    else
      var head := ScanAt(zip, cd, cursor);
      if head.None? then None
      else
        var rest := Walk(zip, cd, head.value.1, count - 1);
        if rest.None? then None
        else Some(((if head.value.0.keep then [head.value.0] else []) + rest.value.0, rest.value.1))
  }

  /** The end record that decides, as a position in the whole file. */
  function EndPosition(zip: seq<byte>): (r: Option<nat>)
    ensures r.Some? ==> EndAt(zip, r.value)
  {
    if |zip| < END_MIN then None
    else
      var tailSize := if |zip| > END_SCAN_MAX then END_SCAN_MAX else |zip|;
      var tail := zip[|zip| - tailSize..];
      match FindEnd(tail, tailSize - END_MIN, 0)
      case None => None
      case Some(e) =>
        FieldOfSlice(zip, |zip| - tailSize, |zip|, e);
        FieldOfSlice(zip, |zip| - tailSize, |zip|, e + 20);
        Some(|zip| - tailSize + e)
  }

  ghost predicate EndUsable(zip: seq<byte>, e: nat)
    requires EndAt(zip, e)
  {
    && Get16(zip, e + 4) == Get16(zip, e + 6) == 0
    && Get16(zip, e + 10) != 0xffff
    && Get32(zip, e + 12) != 0xffff_ffff
    && Get32(zip, e + 16) != 0xffff_ffff
    && Get32(zip, e + 12) + Get32(zip, e + 16) <= |zip|
  }

  function Directory(zip: seq<byte>, e: nat): seq<byte>
    requires EndAt(zip, e) && Get32(zip, e + 12) + Get32(zip, e + 16) <= |zip|
  {
    zip[Get32(zip, e + 16)..Get32(zip, e + 16) + Get32(zip, e + 12)]
  }

  /** zip_open_from_file: the entries of an accepted archive. */
  ghost function Opened(zip: seq<byte>): (r: Option<seq<Scan>>)
  {
    match EndPosition(zip)
    case None => None
    case Some(e) =>
      if !EndUsable(zip, e) then None
      else
        var cd := Directory(zip, e);
        match Walk(zip, cd, 0, Get16(zip, e + 10))
        case None => None
        case Some((scans, cursor)) => if cursor == |cd| then Some(scans) else None
  }

  /** What extraction delivers for an entry: its plain octets when size and CRC agree. */
  function Extracted(zip: seq<byte>, inflate: Inflater, s: Scan): Option<seq<byte>>
    requires s.dataOffset + s.compressedSize <= |zip|
  {
    var stored := zip[s.dataOffset..s.dataOffset + s.compressedSize];
    if s.scheme == STORED then
      if CrcOf(stored) == s.crc then Some(stored) else None
    else if s.scheme == DEFLATED then
      match inflate(stored)
      case None => None
      case Some(plain) =>
        if |plain| == s.uncompressedSize && CrcOf(plain) == s.crc then Some(plain) else None
    else None
  }

  // -------------------------------------------------------------- soundness

  /** An acceptable record lies at `at` and fills the directory up to `next`. */
  ghost predicate RecordSpans(cd: seq<byte>, at: nat, next: nat)
  {
    CentralOk(cd, at) && next == at + RecordSize(cd, at)
  }

  /** Where each record of a walk begins. */
  ghost predicate Tiles(cd: seq<byte>, starts: seq<nat>, first: nat, last: nat)
  {
    && |starts| > 0 && starts[0] == first && starts[|starts| - 1] == last
    && forall k :: 0 <= k < |starts| - 1 ==> RecordSpans(cd, starts[k], starts[k + 1])
  }

  ghost predicate SoundScan(zip: seq<byte>, s: Scan)
  {
    && s.keep
    && ReaderSafe(s.name) && !IsDirectoryName(s.name)
    && s.dataOffset + s.compressedSize <= |zip|
    && (s.scheme == STORED || s.scheme == DEFLATED)
    && (s.scheme == STORED ==> s.compressedSize == s.uncompressedSize)
    && s.flags % 2 == 0
  }

  lemma ScanIsSound(zip: seq<byte>, cd: seq<byte>, cursor: nat)
    requires ScanAt(zip, cd, cursor).Some?
    ensures var (s, next) := ScanAt(zip, cd, cursor).value;
            RecordSpans(cd, cursor, next) && (s.keep ==> SoundScan(zip, s))
  {}

  lemma {:induction false} WalkIsSound(zip: seq<byte>, cd: seq<byte>, cursor: nat, count: nat)
    returns (starts: seq<nat>)
    requires Walk(zip, cd, cursor, count).Some?
    ensures |starts| == count + 1
    ensures Tiles(cd, starts, cursor, Walk(zip, cd, cursor, count).value.1)
    ensures forall s :: s in Walk(zip, cd, cursor, count).value.0 ==> SoundScan(zip, s)
    decreases count
  {
    hide ScanAt;
    hide RecordSpans;
    hide SoundScan;
    if count == 0 {
      starts := [cursor];
    } else {
      var (s, next) := ScanAt(zip, cd, cursor).value;
      ScanIsSound(zip, cd, cursor);
      var rest := WalkIsSound(zip, cd, next, count - 1);
      starts := [cursor] + rest;
    }
  }

  /** An accepted archive: records tile the directory, ranges lie in the file, names are relative. */
  lemma AcceptedIsSound(zip: seq<byte>) returns (e: nat, starts: seq<nat>)
    requires Opened(zip).Some?
    ensures EndAt(zip, e) && EndUsable(zip, e)
    ensures |starts| == Get16(zip, e + 10) + 1
    ensures Tiles(Directory(zip, e), starts, 0, |Directory(zip, e)|)
    ensures forall s :: s in Opened(zip).value ==> SoundScan(zip, s)
  {
    e := EndPosition(zip).value;
    starts := WalkIsSound(zip, Directory(zip, e), 0, Get16(zip, e + 10));
  }

  lemma {:induction false} WalkAppend(zip: seq<byte>, cd: seq<byte>, cursor: nat, count: nat)
    requires Walk(zip, cd, cursor, count).Some?
    ensures Walk(zip, cd, cursor, count + 1) ==
            var (scans, last) := Walk(zip, cd, cursor, count).value;
            match ScanAt(zip, cd, last)
            case None => None
            case Some((s, next)) => Some((scans + (if s.keep then [s] else []), next))
    decreases count
  {
    hide ScanAt;
    if count == 0 {
      if ScanAt(zip, cd, cursor).Some? {
        var (s, next) := ScanAt(zip, cd, cursor).value;
        assert Walk(zip, cd, next, 0) == Some(([], next));
        assert (if s.keep then [s] else []) + [] == [] + (if s.keep then [s] else []);
      }
    } else {
      var (s, next) := ScanAt(zip, cd, cursor).value;
      var (scans, last) := Walk(zip, cd, next, count - 1).value;
      WalkAppend(zip, cd, next, count - 1);
      var head := if s.keep then [s] else [];
      assert Walk(zip, cd, cursor, count).value == (head + scans, last);
      if ScanAt(zip, cd, last).Some? {
        var t := ScanAt(zip, cd, last).value.0;
        assert head + (scans + (if t.keep then [t] else [])) == head + scans + (if t.keep then [t] else []);
      }
    }
  }

  lemma {:induction false} WalkPrefix(zip: seq<byte>, cd: seq<byte>, cursor: nat, count: nat, more: nat)
    requires count <= more && Walk(zip, cd, cursor, more).Some?
    ensures Walk(zip, cd, cursor, count).Some?
    ensures Walk(zip, cd, cursor, count).value.0 <= Walk(zip, cd, cursor, more).value.0
    decreases count
  {
    hide ScanAt;
    if count > 0 {
      WalkPrefix(zip, cd, ScanAt(zip, cd, cursor).value.1, count - 1, more - 1);
    }
  }
}
