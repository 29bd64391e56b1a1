/**
 * The record layouts of the ZIP format as both sides of the archive code use them
 * (PKWARE APPNOTE sections 4.3.7, 4.3.12 and 4.3.16), the name rules of writer and
 * reader, and the CRC-32 of zlib.
 */
module ZipFormat {
  import opened Bytes

  const LOCAL_SIGNATURE: u32 := 0x04034b50
  const CENTRAL_SIGNATURE: u32 := 0x02014b50
  const END_SIGNATURE: u32 := 0x06054b50
  const VERSION: u16 := 20
  const LOCAL_FIXED := 30
  const CENTRAL_FIXED := 46
  const END_MIN := 22
  const END_SCAN_MAX := 22 + 0xffff
  const WRITER_NAME_MAX := 255
  const WRITER_ENTRY_MAX := 256

  const SLASH: byte := 0x2f
  const BACKSLASH: byte := 0x5c
  const COLON: byte := 0x3a
  const DOT: byte := 0x2e
  const CR: byte := 0x0d
  const LF: byte := 0x0a

  // ---------------------------------------------------------------- records

  /** What the writer remembers of a finished entry. */
  datatype WriterEntry = WriterEntry(name: seq<byte>, crc: u32, size: u32,
                                     localOffset: u32, dosDate: u16, dosTime: u16)

  /** A stored, unencrypted local file header without extra field. */
  function LocalHeader(nameLen: u16, date: u16, time: u16, crc: u32, size: u32): (h: seq<byte>)
    ensures |h| == LOCAL_FIXED
  {
    Put32(LOCAL_SIGNATURE) + Put16(VERSION) + [0, 0, 0, 0] + Put16(time) + Put16(date) +
    Put32(crc) + Put32(size) + Put32(size) + Put16(nameLen) + [0, 0]
  }

  function CentralRecord(e: WriterEntry): (r: seq<byte>)
    requires |e.name| <= WRITER_NAME_MAX
    ensures |r| == CENTRAL_FIXED + |e.name|
  {
    Put32(CENTRAL_SIGNATURE) + Put16(VERSION) + Put16(VERSION) + [0, 0, 0, 0] +
    Put16(e.dosTime) + Put16(e.dosDate) + Put32(e.crc) + Put32(e.size) + Put32(e.size) +
    Put16(|e.name|) + [0, 0, 0, 0, 0, 0, 0, 0, 0, 0, 0, 0] + Put32(e.localOffset) + e.name
  }

  function Central(entries: seq<WriterEntry>): (r: seq<byte>)
    requires forall e :: e in entries ==> |e.name| <= WRITER_NAME_MAX
  {
    if entries == [] then [] else CentralRecord(entries[0]) + Central(entries[1..])
  }

  function EndRecord(count: u16, size: u32, offset: u32): (r: seq<byte>)
    ensures |r| == END_MIN
  {
    Put32(END_SIGNATURE) + [0, 0, 0, 0] + Put16(count) + Put16(count) +
    Put32(size) + Put32(offset) + [0, 0]
  }

  lemma LocalHeaderFields(nameLen: u16, date: u16, time: u16, crc: u32, size: u32)
    ensures var h := LocalHeader(nameLen, date, time, crc, size);
            && Get32(h, 0) == LOCAL_SIGNATURE
            && Get16(h, 4) == VERSION
            && Get16(h, 6) == Get16(h, 8) == 0
            && Get16(h, 10) == time
            && Get16(h, 12) == date
            && Get32(h, 14) == crc
            && Get32(h, 18) == Get32(h, 22) == size
            && Get16(h, 26) == nameLen
            && Get16(h, 28) == 0
  {
    Get32Put32(LOCAL_SIGNATURE);
    Get32Put32(crc);
    Get32Put32(size);
  }

  lemma CentralRecordFields(e: WriterEntry)
    requires |e.name| <= WRITER_NAME_MAX
    ensures var r := CentralRecord(e);
            && Get32(r, 0) == CENTRAL_SIGNATURE
            && Get16(r, 4) == Get16(r, 6) == VERSION
            && Get16(r, 8) == Get16(r, 10) == 0
            && Get16(r, 12) == e.dosTime
            && Get16(r, 14) == e.dosDate
            && Get32(r, 16) == e.crc
            && Get32(r, 20) == Get32(r, 24) == e.size
            && Get16(r, 28) == |e.name|
            && Get16(r, 30) == Get16(r, 32) == Get16(r, 34) == Get16(r, 36) == 0
            && Get32(r, 38) == 0
            && Get32(r, 42) == e.localOffset
            && r[CENTRAL_FIXED..] == e.name
  {
    Get32Put32(CENTRAL_SIGNATURE);
    Get32Put32(e.crc);
    Get32Put32(e.size);
    Get32Put32(e.localOffset);
  }

  lemma EndRecordFields(count: u16, size: u32, offset: u32)
    ensures var r := EndRecord(count, size, offset);
            && Get32(r, 0) == END_SIGNATURE
            && Get16(r, 4) == Get16(r, 6) == 0
            && Get16(r, 8) == Get16(r, 10) == count
            && Get32(r, 12) == size
            && Get32(r, 16) == offset
            && Get16(r, 20) == 0
  {
    Get32Put32(END_SIGNATURE);
    Get32Put32(size);
    Get32Put32(offset);
  }

  // ------------------------------------------------------------------ names

  predicate ReaderSeparator(c: byte) { c == SLASH || c == BACKSLASH || c == COLON }

  predicate WriterSeparator(c: byte) { c == SLASH }

  /** name[i..j] is a maximal stretch without separators. */
  ghost predicate Component(name: seq<byte>, separator: byte -> bool, i: nat, j: nat)
  {
    && i <= j <= |name|
    && (i == 0 || separator(name[i - 1]))
    && (j == |name| || separator(name[j]))
    && forall k :: i <= k < j ==> !separator(name[k])
  }

  /** Neither empty nor a step to the same or the parent directory. */
  predicate Proper(component: seq<byte>)
  {
    component != [] && component != [DOT] && component != [DOT, DOT]
  }

  /** What zip_name_is_safe accepts: relative names, with one trailing slash for a directory. */
  ghost predicate ReaderSafe(name: seq<byte>)
  {
    && name != []
    && 0 !in name
    && forall i: nat, j: nat :: Component(name, ReaderSeparator, i, j) ==>
         || Proper(name[i..j])
         || (0 < i == j == |name| && name[|name| - 1] == SLASH)
  }

  /** What writer_name_valid accepts. */
  ghost predicate WriterValid(name: seq<byte>)
  {
    && 0 < |name| <= WRITER_NAME_MAX
    && (forall k :: 0 <= k < |name| ==>
          name[k] != BACKSLASH && name[k] != COLON && name[k] != CR && name[k] != LF && name[k] != 0)
    && forall i: nat, j: nat :: Component(name, WriterSeparator, i, j) ==> Proper(name[i..j])
  }

  predicate IsDirectoryName(name: seq<byte>) { |name| > 0 && name[|name| - 1] == SLASH }

  /** Every name the writer takes is one the reader keeps. */
  lemma WriterValidIsReaderSafe(name: seq<byte>)
    requires WriterValid(name)
    ensures ReaderSafe(name) && !IsDirectoryName(name)
  {
    var n := |name|;
    assert Component(name, WriterSeparator, n, n) == IsDirectoryName(name);
    forall i: nat, j: nat | Component(name, ReaderSeparator, i, j)
      ensures Proper(name[i..j])
    {
      assert Component(name, WriterSeparator, i, j);
    }
  }

  // -------------------------------------------------------------------- CRC

  function Pow2(n: nat): (p: nat)
    ensures p > 0
  {
    if n == 0 then 1 else 2 * Pow2(n - 1)
  }

  /** Exclusive or of two n-bit numbers. */
  function Xor(n: nat, a: nat, b: nat): (r: nat)
    requires a < Pow2(n) && b < Pow2(n)
    ensures r < Pow2(n)
    decreases n
  {
    if n == 0 then 0 else (a + b) % 2 + 2 * Xor(n - 1, a / 2, b / 2)
  }

  lemma WordSize()
    ensures Pow2(32) == 0x1_0000_0000
  {
    assert Pow2(8) == 0x100;
    assert Pow2(16) == 0x1_0000;
    assert Pow2(24) == 0x100_0000;
  }

  function Xor32(a: u32, b: u32): u32
  {
    WordSize();
    Xor(32, a, b)
  }

  /** `count` steps of the reflected CRC-32 register. */
  function CrcBits(c: u32, count: nat): u32
    decreases count
  {
    if count == 0 then c
    else CrcBits(if c % 2 == 1 then Xor32(c / 2, 0xedb88320) else c / 2, count - 1)
  }

  function CrcStep(c: u32, b: byte): u32 { CrcBits(Xor32(c, b), 8) }

  /** zlib's crc32(crc, s, |s|). */
  function Crc32(crc: u32, s: seq<byte>): u32
  {
    0xffff_ffff - Fold<u32, byte>(CrcStep, 0xffff_ffff - crc, s)
  }

  /** The CRC a finished buffer is recorded with. */
  function CrcOf(s: seq<byte>): u32 { Crc32(0, s) }

  lemma CrcOfNothing()
    ensures CrcOf([]) == 0
  {}

  /** Feeding a buffer in pieces gives the CRC of the whole. */
  lemma Crc32Append(crc: u32, s: seq<byte>, t: seq<byte>)
    ensures Crc32(Crc32(crc, s), t) == Crc32(crc, s + t)
  {
    hide CrcStep;
    FoldAppend<u32, byte>(CrcStep, 0xffff_ffff - crc, s, t);
  }
}
