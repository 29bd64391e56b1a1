/**
 * The ZIP reader: the end record by backward scan, two walks over the central directory with
 * a cross-check of every local header, and extraction.
 */
module ZipReader {
  import opened Bytes
  import opened ByteFiles
  import opened ZipDirectory
  import opened ZipFormat

  const IO_CHUNK := 4096
  const COMPARE_CHUNK := 256

  /** zip_find_eocd. */
  method FindEocd(tail: seq<byte>) returns (offset: Option<nat>)
    ensures offset == if |tail| < END_MIN then None
                      else FindEnd(tail, |tail| - END_MIN, LowestEnd(|tail|))
  {
    if |tail| < END_MIN {
      return None;
    }
    var minPos := if |tail| > END_SCAN_MAX then |tail| - END_SCAN_MAX else 0;
    var pos := |tail| - END_MIN;
    while true
      invariant minPos <= pos <= |tail| - END_MIN
      invariant FindEnd(tail, pos, minPos) == FindEnd(tail, |tail| - END_MIN, minPos)
      decreases pos
    {
      if Get32(tail, pos) == END_SIGNATURE {
        var commentLen := Get16(tail, pos + 20);
        if pos + END_MIN + commentLen == |tail| {
          return Some(pos);
        }
      }
      if pos == minPos {
        break;
      }
      pos := pos - 1;
    }
    offset := None;
  }

  /** zip_name_is_safe. */
  method NameIsSafe(name: seq<byte>) returns (ok: bool)
    ensures ok <==> ReaderSafe(name)
  {
    hide ReaderSafe, Component;
    if |name| == 0 || 0 in name {
      NotEvenText(name);
      return false;
    }
    if ReaderSeparator(name[0]) {
      UnsafeComponent(name, 0, 0);
      return false;
    }
    var segment := 0;
    for i := 0 to |name|
      invariant segment <= i
      invariant i - segment == 0 || ReaderSeparator(name[i - segment - 1])
      invariant forall k :: i - segment <= k < i ==> !ReaderSeparator(name[k])
      invariant ProperBefore(name, i)
    {
      ghost var start: nat := i - segment;
      ProperFurther(name, start, i);
      if ReaderSeparator(name[i]) {
        if segment == 0 || (segment == 1 && name[i - 1] == DOT) ||
           (segment == 2 && name[i - 2] == DOT && name[i - 1] == DOT) {
          assert !Proper(name[start..i]);
          UnsafeComponent(name, start, i);
          return false;
        }
        assert Proper(name[start..i]);
        segment := 0;
      } else {
        segment := segment + 1;
      }
    }
    ghost var start: nat := |name| - segment;
    SafeByLast(name, start);
    if segment == 0 {
      return name[|name| - 1] == SLASH;
    }
    ok := !(segment == 1 && name[|name| - 1] == DOT) &&
          !(segment == 2 && name[|name| - 2] == DOT && name[|name| - 1] == DOT);
  }

  /** Every component that ends before i is proper. */
  ghost predicate ProperBefore(name: seq<byte>, i: nat)
  {
    forall a: nat, b: nat :: b < i && Component(name, ReaderSeparator, a, b) ==> Proper(name[a..b])
  }

  lemma NotEvenText(name: seq<byte>)
    requires name == [] || 0 in name
    ensures !ReaderSafe(name)
  {}

  lemma UnsafeComponent(name: seq<byte>, a: nat, b: nat)
    requires a <= b < |name| && (a == 0 || ReaderSeparator(name[a - 1])) && ReaderSeparator(name[b])
    requires forall k :: a <= k < b ==> !ReaderSeparator(name[k])
    requires a == b || !Proper(name[a..b])
    ensures !ReaderSafe(name)
  {
    assert Component(name, ReaderSeparator, a, b);
  }

  lemma ProperFurther(name: seq<byte>, start: nat, i: nat)
    requires start <= i < |name| && ProperBefore(name, i) && (start == 0 || ReaderSeparator(name[start - 1]))
    requires forall k :: start <= k < i ==> !ReaderSeparator(name[k])
    ensures !ReaderSeparator(name[i]) || Proper(name[start..i]) ==> ProperBefore(name, i + 1)
  {
    assert forall a: nat :: Component(name, ReaderSeparator, a, i) ==> a == start;
  }

  lemma SafeByLast(name: seq<byte>, start: nat)
    requires name != [] && 0 !in name && start <= |name| && ProperBefore(name, |name|)
    requires (start == 0 || ReaderSeparator(name[start - 1])) && forall k :: start <= k < |name| ==> !ReaderSeparator(name[k])
    ensures ReaderSafe(name) <==>
            Proper(name[start..]) || (start == |name| && name[|name| - 1] == SLASH)
  {
    var n := |name|;
    assert Component(name, ReaderSeparator, start, n);
    assert forall a: nat :: Component(name, ReaderSeparator, a, n) ==> a == start;
    assert name[start..n] == name[start..];
  }

  /** zip_compare_file_bytes: compare the next octets of the file through a 256-octet buffer. */
  method CompareFileBytes(file: ByteFile, expected: seq<byte>) returns (same: bool)
    requires file.pos <= |file.data|
    modifies file`pos
    ensures same <==> expected <= file.data[old(file.pos)..]
    ensures same ==> file.pos == old(file.pos) + |expected|
    ensures file.pos <= |file.data|
  {
    var remaining, offset := |expected|, 0;
    ghost var start := file.pos;
    while remaining > 0
      invariant 0 <= remaining && offset + remaining == |expected|
      invariant start + offset == file.pos <= |file.data|
      invariant expected[..offset] == file.data[start..start + offset]
    {
      var chunk := if remaining < COMPARE_CHUNK then remaining else COMPARE_CHUNK;
      var buf := file.Read(chunk);
      assert expected <= file.data[start..] ==>
          |expected| <= |file.data| - start && buf == expected[offset..offset + chunk] by {
        if expected <= file.data[start..] {
          assert |buf| == chunk;
          forall k | 0 <= k < chunk ensures buf[k] == expected[offset..offset + chunk][k] {
            assert file.data[start..][offset + k] == expected[offset + k];
          }
        }
      }
      if |buf| != chunk || buf != expected[offset..offset + chunk] {
        return false;
      }
      assert expected[..offset + chunk] == expected[..offset] + buf;
      assert file.data[start..start + offset + chunk] == file.data[start..start + offset] + buf;
      offset, remaining := offset + chunk, remaining - chunk;
    }
    assert expected[..offset] == expected;
    same := true;
  }

  /** zip_scan_entry. */
  method ScanEntry(file: ByteFile, cd: seq<byte>, cursor: nat) returns (r: Option<(Scan, nat)>)
    requires file.pos <= |file.data|
    modifies file`pos
    ensures file.pos <= |file.data|
    ensures r == ScanAt(file.data, cd, cursor)
  {
    if cursor > |cd| || |cd| - cursor < CENTRAL_FIXED {
      return None;
    }
    if Get32(cd, cursor) != CENTRAL_SIGNATURE {
      return None;
    }
    var flags := Get16(cd, cursor + 8);
    var scheme := Get16(cd, cursor + 10);
    var crc := Get32(cd, cursor + 16);
    var compressedSize := Get32(cd, cursor + 20);
    var uncompressedSize := Get32(cd, cursor + 24);
    var nameLen := Get16(cd, cursor + 28);
    var extraLen := Get16(cd, cursor + 30);
    var commentLen := Get16(cd, cursor + 32);
    var localOffset := Get32(cd, cursor + 42);
    if compressedSize == 0xffff_ffff || uncompressedSize == 0xffff_ffff ||
       localOffset == 0xffff_ffff {
      return None;
    }
    var recordSize := CENTRAL_FIXED + nameLen + extraLen + commentLen;
    if recordSize > |cd| - cursor {
      return None;
    }
    var name := cd[cursor + CENTRAL_FIXED..cursor + CENTRAL_FIXED + nameLen];
    if flags % 2 == 1 {
      return None;
    }
    var safe := NameIsSafe(name);
    if !safe {
      return None;
    }
    var keep := !IsDirectoryName(name) && (scheme == STORED || scheme == DEFLATED);
    if scheme == STORED && compressedSize != uncompressedSize {
      return None;
    }
    assert CentralOk(cd, cursor) && name == RecordName(cd, cursor);
    var dataOffset := CheckLocal(file, localOffset, name, scheme, compressedSize);
    if dataOffset.None? {
      return None;
    }
    r := Some((Scan(name, dataOffset.value, flags, scheme, crc, compressedSize, uncompressedSize,
                    localOffset, keep), cursor + recordSize));
  }

  /** The half of zip_scan_entry that reads the local header. */
  method CheckLocal(file: ByteFile, at: nat, name: seq<byte>, scheme: u16, compressedSize: nat)
    returns (dataOffset: Option<nat>)
    requires file.pos <= |file.data|
    modifies file`pos
    ensures file.pos <= |file.data|
    ensures dataOffset.Some? <==> LocalOk(file.data, at, name, scheme, compressedSize)
    ensures dataOffset.Some? ==> dataOffset.value == DataOffset(file.data, at)
  {
    if !WithinFile(at, LOCAL_FIXED, |file.data|) {
      return None;
    }
    file.pos := at;
    var local := file.Read(LOCAL_FIXED);
    FieldOfSlice(file.data, at, at + LOCAL_FIXED, 0);
    FieldOfSlice(file.data, at, at + LOCAL_FIXED, 6);
    FieldOfSlice(file.data, at, at + LOCAL_FIXED, 8);
    FieldOfSlice(file.data, at, at + LOCAL_FIXED, 26);
    FieldOfSlice(file.data, at, at + LOCAL_FIXED, 28);
    if Get32(local, 0) != LOCAL_SIGNATURE {
      return None;
    }
    if Get16(local, 6) % 2 == 1 {
      return None;
    }
    if Get16(local, 8) != scheme {
      return None;
    }
    if Get16(local, 26) != |name| {
      return None;
    }
    var localPos := at + LOCAL_FIXED;
    if !WithinFile(localPos, |name|, |file.data|) {
      return None;
    }
    var same := CompareFileBytes(file, name);
    if !same {
      return None;
    }
    var localExtraLen := Get16(local, 28);
    if !WithinFile(localPos + |name|, localExtraLen, |file.data|) {
      return None;
    }
    file.pos := file.pos + localExtraLen;
    var offset := localPos + |name| + localExtraLen;
    if !WithinFile(offset, compressedSize, |file.data|) {
      return None;
    }
    dataOffset := Some(offset);
  }

  /** zip_copy_stored: copy through a 4096-octet buffer, keeping the CRC. */
  method CopyStored(input: ByteFile, out: ByteFile, size: nat) returns (ok: bool, crc: u32)
    requires input != out && input.pos <= |input.data| && out.pos <= |out.data|
    modifies input`pos, out
    ensures ok <==> old(input.pos) + size <= |input.data|
    ensures input.pos <= |input.data|
    ensures ok ==> var copied := input.data[old(input.pos)..old(input.pos) + size];
                   && crc == CrcOf(copied)
                   && out.data == Overlay(old(out.data), old(out.pos), copied)
                   && out.pos == old(out.pos) + size
  {
    hide Crc32;
    var remaining := size;
    crc := 0;
    CrcOfNothing();
    ghost var start, out0, at := input.pos, out.data, out.pos;
    assert input.data[start..start] == [];
    while remaining > 0
      invariant 0 <= remaining <= size
      invariant input.pos == start + (size - remaining) <= |input.data|
      invariant crc == CrcOf(input.data[start..input.pos])
      invariant out.pos == at + (size - remaining) <= |out.data|
      invariant out.data == Overlay(out0, at, input.data[start..input.pos])
    {
      var chunk := if remaining < IO_CHUNK then remaining else IO_CHUNK;
      ghost var before := input.pos;
      var buf := input.Read(chunk);
      if |buf| != chunk {
        return false, crc;
      }
      assert input.data[start..input.pos] == input.data[start..before] + buf;
      OverlayTwice(out0, at, input.data[start..before], buf);
      Crc32Append(0, input.data[start..before], buf);
      out.Write(buf);
      crc := Crc32(crc, buf);
      remaining := remaining - chunk;
    }
    ok := true;
  }

  /** Two writes one behind the other are one write. */
  lemma OverlayTwice(s: seq<byte>, at: nat, a: seq<byte>, b: seq<byte>)
    requires at <= |s|
    ensures Overlay(Overlay(s, at, a), at + |a|, b) == Overlay(s, at, a + b)
  {}

  /** An entry of the opened archive; its name is a C string inside the name storage. */
  datatype Entry = Entry(nameAt: nat, flags: u16, scheme: u16, crc: u32, compressedSize: u32,
                         uncompressedSize: u32, localOffset: u32)

  class Archive {
    const file: ByteFile
    const inflate: Inflater
    const entryCount: nat
    const entries: array<Entry>
    const dataOffsets: array<nat>
    const nameStorage: array<byte>

    /** Slot k of the tables holds `s`, its name NUL-terminated in the storage. */
    ghost predicate Slot(k: nat, s: Scan)
      reads entries, dataOffsets, nameStorage
    {
      && k < entries.Length && k < dataOffsets.Length
      && var e := entries[k];
         && dataOffsets[k] == s.dataOffset
         && e == Entry(e.nameAt, s.flags, s.scheme, s.crc, s.compressedSize, s.uncompressedSize, s.localOffset)
         && e.nameAt + |s.name| < nameStorage.Length
         && nameStorage[e.nameAt..e.nameAt + |s.name|] == s.name
         && nameStorage[e.nameAt + |s.name|] == 0
    }

    /** The first |scans| slots hold `scans`, their names lying below `limit` in the storage. */
    ghost predicate Filled(scans: seq<Scan>, limit: nat)
      reads entries, dataOffsets, nameStorage
    {
      forall k: nat :: k < |scans| ==>
        Slot(k, scans[k]) && entries[k].nameAt + |scans[k].name| < limit
    }

    /** The tables list exactly `scans`, in order, and the file they were read from is unchanged. */
    ghost predicate Lists(scans: seq<Scan>)
      reads this, file, entries, dataOffsets, nameStorage
    {
      && Opened(file.data) == Some(scans)
      && entryCount == |scans| == entries.Length == dataOffsets.Length
      && file.pos <= |file.data|
      && Filled(scans, nameStorage.Length)
    }

    constructor (file: ByteFile, inflate: Inflater, entryCount: nat, nameBytes: nat)
      ensures this.file == file && this.inflate == inflate && this.entryCount == entryCount
      ensures entries.Length == dataOffsets.Length == entryCount && nameStorage.Length == nameBytes
      ensures fresh(entries) && fresh(dataOffsets) && fresh(nameStorage)
    {
      this.file, this.inflate, this.entryCount := file, inflate, entryCount;
      entries := new Entry[entryCount](_ => Entry(0, 0, 0, 0, 0, 0, 0));
      dataOffsets := new nat[entryCount](_ => 0);
      nameStorage := new byte[nameBytes](_ => 0);
    }

    /** memcpy of a name into the storage, and its terminator; names stored below stay. */
    method CopyName(at: nat, name: seq<byte>, ghost before: seq<Scan>)
      requires at + |name| < nameStorage.Length && Filled(before, at)
      modifies nameStorage
      ensures nameStorage[at..at + |name|] == name && nameStorage[at + |name|] == 0
      ensures Filled(before, at)
    {
      ghost var was := nameStorage[..];
      for i := 0 to |name|
        invariant nameStorage[at..at + i] == name[..i]
        invariant nameStorage[..at] == was[..at]
      {
        nameStorage[at + i] := name[i];
      }
      nameStorage[at + |name|] := 0;
      ghost var now := nameStorage[..];
      assert now[..at] == was[..at];
      forall k: nat | k < |before| ensures Slot(k, before[k]) && entries[k].nameAt + |before[k].name| < at {
        assert old(Slot(k, before[k]));
        NameStays(now, was, at, entries[k].nameAt, |before[k].name|);
      }
    }

    /** Store one kept entry behind the entries `before`. */
    method Store(index: nat, nameCursor: nat, s: Scan, ghost before: seq<Scan>)
      requires index == |before| < entries.Length && entries.Length == dataOffsets.Length
      requires nameCursor + |s.name| < nameStorage.Length
      requires Filled(before, nameCursor)
      modifies entries, dataOffsets, nameStorage
      ensures Filled(before + [s], nameCursor + |s.name| + 1)
    {
      CopyName(nameCursor, s.name, before);
      label copied:
      entries[index] := Entry(nameCursor, s.flags, s.scheme, s.crc, s.compressedSize,
                              s.uncompressedSize, s.localOffset);
      dataOffsets[index] := s.dataOffset;
      assert Slot(index, s);
      forall k: nat | k < index ensures Slot(k, before[k]) && entries[k].nameAt + |before[k].name| < nameCursor {
        assert old@copied(Slot(k, before[k]));
      }
      hide Slot;
    }
  }

  /** A name below what is written stays as it is. */
  lemma NameStays(now: seq<byte>, was: seq<byte>, limit: nat, at: nat, n: nat)
    requires |now| == |was| && at + n < limit <= |now| && now[..limit] == was[..limit]
    ensures now[at..at + n] == was[at..at + n] && now[at + n] == was[at + n]
  {
    SliceOfSlice(now, 0, limit, at, at + n);
    SliceOfSlice(was, 0, limit, at, at + n);
    assert now[0..limit] == now[..limit] && was[0..limit] == was[..limit];
    assert now[at + n] == now[..limit][at + n] && was[at + n] == was[..limit][at + n];
  }

  /** What the first pass counts: every name with its terminator. */
  ghost function NameBytes(scans: seq<Scan>): (n: nat)
  {
    if scans == [] then 0 else NameBytes(scans[..|scans| - 1]) + |scans[|scans| - 1].name| + 1
  }

  lemma NameBytesAppend(scans: seq<Scan>, s: Scan)
    ensures NameBytes(scans + [s]) == NameBytes(scans) + |s.name| + 1
  {
    assert (scans + [s])[..|scans|] == scans;
  }

  lemma {:induction false} NameBytesPrefix(a: seq<Scan>, b: seq<Scan>)
    requires a <= b
    ensures NameBytes(a) <= NameBytes(b)
    decreases |b|
  {
    if a != b {
      assert a <= b[..|b| - 1];
      NameBytesPrefix(a, b[..|b| - 1]);
    } else {
      assert a == b;
    }
  }

  /** A walk that stops early refuses every longer walk. */
  lemma WalkStops(zip: seq<byte>, cd: seq<byte>, count: nat, total: nat)
    requires count < total && Walk(zip, cd, 0, count).Some?
    requires ScanAt(zip, cd, Walk(zip, cd, 0, count).value.1).None?
    ensures Walk(zip, cd, 0, total).None?
  {
    WalkAppend(zip, cd, 0, count);
    if Walk(zip, cd, 0, total).Some? {
      WalkPrefix(zip, cd, 0, count + 1, total);
    }
  }

  /** The first pass of zip_open_from_file: count the kept entries and their name storage. */
  method CountEntries(file: ByteFile, cd: seq<byte>, total: nat)
    returns (r: Option<(nat, nat)>)
    requires file.pos <= |file.data|
    modifies file`pos
    ensures file.pos <= |file.data|
    ensures var w := Walk(file.data, cd, 0, total);
            && (r.Some? <==> w.Some? && w.value.1 == |cd|)
            && (r.Some? ==> r.value == (|w.value.0|, NameBytes(w.value.0)))
  {
    hide ScanAt;
    var cursor, supported, nameStorage := 0, 0, 0;
    ghost var scans := [];
    for i := 0 to total
      invariant file.pos <= |file.data|
      invariant Walk(file.data, cd, 0, i) == Some((scans, cursor))
      invariant supported == |scans| && nameStorage == NameBytes(scans)
    {
      var scan := ScanEntry(file, cd, cursor);
      if scan.None? {
        WalkStops(file.data, cd, i, total);
        return None;
      }
      WalkAppend(file.data, cd, 0, i);
      var (s, next) := scan.value;
      if s.keep {
        NameBytesAppend(scans, s);
        supported := supported + 1;
        nameStorage := nameStorage + |s.name| + 1;
        scans := scans + [s];
      } else {
        assert scans + [] == scans;
      }
      cursor := next;
    }
    if cursor != |cd| {
      return None;
    }
    r := Some((supported, nameStorage));
  }

  /** Inside a walk that succeeds, every record scans and the entries so far are a prefix of all. */
  lemma WalkContinues(zip: seq<byte>, cd: seq<byte>, count: nat, total: nat)
    requires count < total && Walk(zip, cd, 0, total).Some?
    ensures Walk(zip, cd, 0, count).Some?
    ensures var (scans, last) := Walk(zip, cd, 0, count).value;
            && ScanAt(zip, cd, last).Some?
            && var (s, next) := ScanAt(zip, cd, last).value;
               && var more := scans + (if s.keep then [s] else []);
                  && Walk(zip, cd, 0, count + 1) == Some((more, next))
                  && more <= Walk(zip, cd, 0, total).value.0
                  && NameBytes(more) <= NameBytes(Walk(zip, cd, 0, total).value.0)
  {
    hide ScanAt;
    WalkPrefix(zip, cd, 0, count, total);
    WalkPrefix(zip, cd, 0, count + 1, total);
    WalkAppend(zip, cd, 0, count);
    NameBytesPrefix(Walk(zip, cd, 0, count + 1).value.0, Walk(zip, cd, 0, total).value.0);
  }

  lemma NothingYet(zip: Archive, data: seq<byte>, cd: seq<byte>)
    ensures Walk(data, cd, 0, 0) == Some(([], 0)) && NameBytes([]) == 0 && zip.Filled([], 0)
  {}

  /** The second pass: fill the tables that the first pass sized. */
  method FillTables(file: ByteFile, cd: seq<byte>, total: nat, zip: Archive, ghost all: seq<Scan>)
    requires file.pos <= |file.data| && zip.file == file
    requires Walk(file.data, cd, 0, total) == Some((all, |cd|))
    requires zip.entries.Length == zip.dataOffsets.Length == |all|
    requires zip.nameStorage.Length == NameBytes(all)
    modifies file`pos, zip.entries, zip.dataOffsets, zip.nameStorage
    ensures file.pos <= |file.data|
    ensures zip.Filled(all, zip.nameStorage.Length)
  {
    hide ScanAt;
    hide Walk;
    hide NameBytes;
    hide Archive.Filled;
    hide Archive.Slot;
    var cursor, index, nameCursor := 0, 0, 0;
    ghost var scans := [];
    NothingYet(zip, file.data, cd);
    for i := 0 to total
      invariant file.pos <= |file.data|
      invariant Walk(file.data, cd, 0, i) == Some((scans, cursor))
      invariant index == |scans| <= |all| && nameCursor == NameBytes(scans)
      invariant zip.Filled(scans, nameCursor)
    {
      WalkContinues(file.data, cd, i, total);
      var scan := ScanEntry(file, cd, cursor);
      var (s, next) := scan.value;
      if s.keep {
        NameBytesAppend(scans, s);
        zip.Store(index, nameCursor, s, scans);
        index := index + 1;
        nameCursor := nameCursor + |s.name| + 1;
        scans := scans + [s];
      } else {
        assert scans + [] == scans;
      }
      cursor := next;
    }
    assert scans == all;
  }

  /** The fields of an end record, read in the tail or in the whole file. */
  lemma TailFields(zip: seq<byte>, lo: nat, e: nat)
    requires lo + e + END_MIN <= |zip|
    ensures var tail := zip[lo..];
            && Get16(tail, e + 4) == Get16(zip, lo + e + 4)
            && Get16(tail, e + 6) == Get16(zip, lo + e + 6)
            && Get16(tail, e + 10) == Get16(zip, lo + e + 10)
            && Get32(tail, e + 12) == Get32(zip, lo + e + 12)
            && Get32(tail, e + 16) == Get32(zip, lo + e + 16)
  {}

  /** Read the last 65557 octets and look for the end record in them. */
  method ReadTail(file: ByteFile) returns (tail: seq<byte>, end: Option<nat>)
    requires file.pos <= |file.data|
    modifies file`pos
    ensures file.pos <= |file.data|
    ensures end.None? <==> EndPosition(file.data).None?
    ensures end.Some? ==>
              && |tail| <= |file.data| && tail == file.data[|file.data| - |tail|..]
              && end.value + END_MIN <= |tail|
              && EndPosition(file.data) == Some(|file.data| - |tail| + end.value)
  {
    hide EndAt;
    var fileSize := |file.data|;
    if fileSize < END_MIN {
      return [], None;
    }
    var tailSize := if fileSize > END_SCAN_MAX then END_SCAN_MAX else fileSize;
    file.pos := fileSize - tailSize;
    tail := file.Read(tailSize);
    assert tail == file.data[fileSize - tailSize..];
    end := FindEocd(tail);
  }

  /** The part of zip_open_from_file that takes the directory's place from the end record. */
  method ReadEnd(file: ByteFile) returns (r: Option<(u16, u32, u32)>)
    requires file.pos <= |file.data|
    modifies file`pos
    ensures file.pos <= |file.data|
    ensures var at := EndPosition(file.data);
            && (r.Some? <==> at.Some? && EndUsable(file.data, at.value))
            && (r.Some? ==> r.value == (Get16(file.data, at.value + 10), Get32(file.data, at.value + 12),
                                        Get32(file.data, at.value + 16)))
  {
    hide EndPosition;
    var fileSize := |file.data|;
    var tail, end := ReadTail(file);
    if end.None? {
      return None;
    }
    var e := end.value;
    TailFields(file.data, fileSize - |tail|, e);
    var total := Get16(tail, e + 10);
    var cdSize := Get32(tail, e + 12);
    var cdOffset := Get32(tail, e + 16);
    if Get16(tail, e + 4) != 0 || Get16(tail, e + 6) != 0 ||
       total == 0xffff || cdSize == 0xffff_ffff || cdOffset == 0xffff_ffff ||
       cdSize > fileSize || cdOffset > fileSize - cdSize {
      return None;
    }
    r := Some((total, cdSize, cdOffset));
  }

  /** zip_open_from_file. */
  method Open(file: ByteFile, inflate: Inflater) returns (zip: Archive?)
    requires file.pos <= |file.data|
    modifies file`pos
    ensures file.pos == old(file.pos)
    ensures zip != null <==> Opened(file.data).Some?
    ensures zip != null ==> zip.Lists(Opened(file.data).value) && zip.inflate == inflate && zip.file == file
  {
    hide Walk;
    hide EndPosition;
    var restorePos := file.pos;
    var end := ReadEnd(file);
    if end.None? {
      file.pos := restorePos;
      return null;
    }
    var (total, cdSize, cdOffset) := end.value;
    file.pos := cdOffset;
    var cd := file.Read(cdSize);
    assert cd == Directory(file.data, EndPosition(file.data).value);
    var counted := CountEntries(file, cd, total);
    if counted.None? {
      file.pos := restorePos;
      return null;
    }
    zip := new Archive(file, inflate, counted.value.0, counted.value.1);
    FillTables(file, cd, total, zip, Opened(file.data).value);
    file.pos := restorePos;
  }

  /** strcmp of a stored name with a C string: equal up to the terminator. */
  method NameEquals(storage: array<byte>, at: nat, ghost stored: seq<byte>, name: seq<byte>) returns (same: bool)
    requires at + |stored| < storage.Length && 0 !in stored && 0 !in name
    requires storage[at..at + |stored|] == stored && storage[at + |stored|] == 0
    ensures same <==> stored == name
  {
    for i := 0 to |name|
      invariant i <= |stored| && stored[..i] == name[..i]
    {
      assert i < |stored| ==> storage[at + i] == stored[i];
      if storage[at + i] != name[i] {
        return false;
      }
    }
    same := storage[at + |name|] == 0;
    assert |name| < |stored| ==> storage[at + |name|] == stored[|name|];
    assert same ==> stored == name by {
      if same {
        assert stored == stored[..|name|];
      }
    }
  }

  lemma ListedNames(zip: seq<byte>)
    requires Opened(zip).Some?
    ensures forall s :: s in Opened(zip).value ==>
              s.name != [] && 0 !in s.name && s.dataOffset + s.compressedSize <= |zip|
  {
    hide Opened;
    var e, starts := AcceptedIsSound(zip);
    assert forall s :: s in Opened(zip).value ==> SoundScan(zip, s);
  }

  /** unifrog_zip_find: the first entry of that name. */
  method Find(zip: Archive, name: seq<byte>, ghost scans: seq<Scan>) returns (index: Option<nat>)
    requires zip.Lists(scans) && 0 !in name
    ensures index.Some? ==>
              && index.value < |scans| && scans[index.value].name == name
              && forall k: nat :: k < index.value ==> scans[k].name != name
    ensures index.None? <==> forall k: nat :: k < |scans| ==> scans[k].name != name
  {
    hide Opened;
    ListedNames(zip.file.data);
    if |name| == 0 {
      return None;
    }
    for i := 0 to zip.entryCount
      invariant forall k: nat :: k < i ==> scans[k].name != name
    {
      assert zip.Slot(i, scans[i]) && scans[i] in scans;
      var same := NameEquals(zip.nameStorage, zip.entries[i].nameAt, scans[i].name, name);
      if same {
        return Some(i);
      }
    }
    index := None;
  }

  /** zip_extract_entry_index. */
  method Extract(zip: Archive, index: nat, out: ByteFile, ghost scans: seq<Scan>) returns (ok: bool)
    requires zip.Lists(scans) && zip.file != out && out.pos <= |out.data|
    modifies zip.file`pos, out
    ensures zip.file.pos == old(zip.file.pos)
    ensures ok <==> index < |scans| && scans[index].dataOffset + scans[index].compressedSize <= |zip.file.data| &&
                    Extracted(zip.file.data, zip.inflate, scans[index]).Some?
    ensures ok ==> var plain := Extracted(zip.file.data, zip.inflate, scans[index]).value;
                   out.data == Overlay(old(out.data), old(out.pos), plain)
  {
    hide Crc32;
    hide Opened;
    ListedNames(zip.file.data);
    if index >= zip.entryCount {
      return false;
    }
    assert zip.Slot(index, scans[index]);
    var entry := zip.entries[index];
    var restorePos := zip.file.pos;
    zip.file.pos := zip.dataOffsets[index];
    var crc := 0;
    if entry.scheme == STORED {
      var copied;
      copied, crc := CopyStored(zip.file, out, entry.compressedSize);
      ok := copied && crc == entry.crc;
    } else if entry.scheme == DEFLATED {
      var stored := zip.file.Read(entry.compressedSize);
      var plain := zip.inflate(stored);
      if plain.None? || |plain.value| != entry.uncompressedSize {
        ok := false;
      } else {
        out.Write(plain.value);
        ok := CrcOf(plain.value) == entry.crc;
      }
    } else {
      ok := false;
    }
    zip.file.pos := restorePos;
  }
}
