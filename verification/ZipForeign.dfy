/**
 * Archives of any making: local entries with extra fields, central records with extra fields and
 * comments, stored or deflated contents, octets in between, and a comment behind the end record
 * (PKWARE APPNOTE sections 4.3.7, 4.3.12 and 4.3.16). The reader lists their files and unpacks them.
 */
module ZipForeign {
  import opened Bytes
  import opened ByteFiles
  import opened ZipDirectory
  import opened ZipFormat
  import opened ZipReader
  import opened ZipRoundTrip

  // ---------------------------------------------------------------- layout

  /** What a local header says beyond method, name and packed octets; streamed entries leave zeros here. */
  datatype Local = Local(version: u16, flags: u16, time: u16, date: u16, crc: u32, packedSize: u32,
                         plainSize: u32, extra: seq<byte>)

  /** What a central record says beyond that. */
  datatype Record = Record(madeBy: u16, needed: u16, flags: u16, time: u16, date: u16, disk: u16,
                           internal: u16, external: u32, extra: seq<byte>, comment: seq<byte>)

  /** A member of the archive, with the octets in front of its local header. */
  datatype Member = Member(before: seq<byte>, name: seq<byte>, scheme: u16, packed: seq<byte>, crc: u32,
                           size: u32, local: Local, record: Record)

  /** What stands behind the last member: the octets around the directory, and the comment. */
  datatype Ending = Ending(before: seq<byte>, between: seq<byte>, countHere: u16, comment: seq<byte>)

  /** Lengths that fit their fields. */
  predicate Fits(m: Member)
  {
    && |m.name| < 0x1_0000 && |m.local.extra| < 0x1_0000
    && |m.record.extra| < 0x1_0000 && |m.record.comment| < 0x1_0000 && |m.packed| < 0xffff_ffff
  }

  function LocalFields(m: Member): (h: seq<byte>)
    requires Fits(m)
    ensures |h| == 30
  {
    [0x50, 0x4b, 3, 4] + Put16(m.local.version) + Put16(m.local.flags) + Put16(m.scheme) +
    Put16(m.local.time) + Put16(m.local.date) + Put32(m.local.crc) + Put32(m.local.packedSize) +
    Put32(m.local.plainSize) + Put16(|m.name|) + Put16(|m.local.extra|)
  }

  function LocalPart(m: Member): (s: seq<byte>)
    requires Fits(m)
    ensures |s| == 30 + |m.name| + |m.local.extra| + |m.packed|
  {
    LocalFields(m) + m.name + m.local.extra + m.packed
  }

  function RecordFields(m: Member, at: u32): (r: seq<byte>)
    requires Fits(m)
    ensures |r| == 46
  {
    [0x50, 0x4b, 1, 2] + Put16(m.record.madeBy) + Put16(m.record.needed) + Put16(m.record.flags) +
    Put16(m.scheme) + Put16(m.record.time) + Put16(m.record.date) + Put32(m.crc) + Put32(|m.packed|) +
    Put32(m.size) + Put16(|m.name|) + Put16(|m.record.extra|) + Put16(|m.record.comment|) +
    Put16(m.record.disk) + Put16(m.record.internal) + Put32(m.record.external) + Put32(at)
  }

  function CentralPart(m: Member, at: u32): (r: seq<byte>)
    requires Fits(m)
    ensures |r| == 46 + |m.name| + |m.record.extra| + |m.record.comment|
  {
    RecordFields(m, at) + m.name + m.record.extra + m.record.comment
  }

  /** All members, one behind the other. */
  function Body(members: seq<Member>): (s: seq<byte>)
    requires forall m :: m in members ==> Fits(m)
  {
    if members == [] then [] else members[0].before + LocalPart(members[0]) + Body(members[1..])
  }

  /** Their central records, when the first member's octets begin at `at`. */
  function Records(members: seq<Member>, at: nat): (s: seq<byte>)
    requires (forall m :: m in members ==> Fits(m)) && at + |Body(members)| < 0xffff_ffff
  {
    if members == [] then []
    else
      var m := members[0];
      var here := at + |m.before|;
      CentralPart(m, here) + Records(members[1..], here + |LocalPart(m)|)
  }

  function EndFields(count: u16, here: u16, size: u32, offset: u32, comment: seq<byte>): (r: seq<byte>)
    requires |comment| < 0x1_0000
    ensures |r| == 22
  {
    [0x50, 0x4b, 5, 6] + [0, 0, 0, 0] + Put16(here) + Put16(count) + Put32(size) + Put32(offset) +
    Put16(|comment|)
  }

  /** An end record at k reaches exactly to the end of s. */
  predicate EndsAt(s: seq<byte>, k: nat)
  {
    k + 22 <= |s| && s[k..k + 4] == [0x50, 0x4b, 5, 6] && k + 22 + s[k + 20] as int + 0x100 * s[k + 21] as int == |s|
  }

  /** Everything fits its field and is in the reader's reach. */
  ghost predicate Packable(members: seq<Member>, e: Ending)
  {
    && (forall m :: m in members ==> Fits(m))
    && |members| < 0xffff && |e.comment| < 0x1_0000
    && |Body(members)| + |e.before| < 0xffff_ffff
    && |Records(members, 0)| < 0xffff_ffff
  }

  function Front(members: seq<Member>, e: Ending): seq<byte>
    requires (forall m :: m in members ==> Fits(m)) && |Body(members)| < 0xffff_ffff
  {
    Body(members) + e.before + Records(members, 0) + e.between
  }

  function EndPart(members: seq<Member>, e: Ending): (s: seq<byte>)
    requires (forall m :: m in members ==> Fits(m)) && |members| < 0xffff && |e.comment| < 0x1_0000
    requires |Body(members)| + |e.before| < 0xffff_ffff && |Records(members, 0)| < 0xffff_ffff
    ensures |s| == 22 + |e.comment|
  {
    EndFields(|members|, e.countHere, |Records(members, 0)|, |Body(members)| + |e.before|, e.comment) + e.comment
  }

  /** The archive. */
  ghost function Laid(members: seq<Member>, e: Ending): seq<byte>
    requires Packable(members, e)
  {
    Front(members, e) + EndPart(members, e)
  }

  /** What the reader asks of a central record: no encryption, a relative name, one size when stored. */
  ghost predicate RecordReadable(m: Member)
  {
    && m.size != 0xffff_ffff && ReaderSafe(m.name) && m.record.flags % 2 == 0
    && (m.scheme == 0 ==> |m.packed| == m.size)
  }

  ghost predicate Readable(m: Member)
  {
    RecordReadable(m) && m.local.flags % 2 == 0
  }

  /** A comment that does not itself look like an end record. */
  ghost predicate Ends(members: seq<Member>, e: Ending)
    requires Packable(members, e)
  {
    forall k: nat :: 0 < k ==> !EndsAt(EndPart(members, e), k)
  }

  /** Members that are files, stored or deflated. */
  predicate IsFile(m: Member)
  {
    (m.name == [] || m.name[|m.name| - 1] != 0x2f) && (m.scheme == 0 || m.scheme == 8)
  }

  function Files(members: seq<Member>): (r: seq<Member>)
  {
    if members == [] then [] else (if IsFile(members[0]) then [members[0]] else []) + Files(members[1..])
  }

  /** The octets that went into a file's packed ones. */
  function Plain(m: Member, inflate: Inflater): Option<seq<byte>>
  {
    if m.scheme == 0 then Some(m.packed) else inflate(m.packed)
  }

  // ---------------------------------------------------------------- fields

  lemma LocalFieldsAre(m: Member)
    requires Fits(m)
    ensures var h := LocalFields(m);
            && Get32(h, 0) == LOCAL_SIGNATURE && Get16(h, 6) == m.local.flags && Get16(h, 8) == m.scheme
            && Get16(h, 26) == |m.name| && Get16(h, 28) == |m.local.extra|
  {}

  lemma RecordFieldsAre(m: Member, at: u32)
    requires Fits(m)
    ensures var r := RecordFields(m, at);
            && Get32(r, 0) == CENTRAL_SIGNATURE && Get16(r, 8) == m.record.flags && Get16(r, 10) == m.scheme
            && Get32(r, 16) == m.crc && Get32(r, 20) == |m.packed| && Get32(r, 24) == m.size
            && Get16(r, 28) == |m.name| && Get16(r, 30) == |m.record.extra| && Get16(r, 32) == |m.record.comment|
            && Get32(r, 42) == at
  {
    Get32Put32(m.crc);
    Get32Put32(|m.packed|);
    Get32Put32(m.size);
    Get32Put32(at);
  }

  lemma EndFieldsAre(count: u16, here: u16, size: u32, offset: u32, comment: seq<byte>)
    requires |comment| < 0x1_0000
    ensures var r := EndFields(count, here, size, offset, comment);
            && Get32(r, 0) == END_SIGNATURE && Get16(r, 4) == Get16(r, 6) == 0 && Get16(r, 10) == count
            && Get32(r, 12) == size && Get32(r, 16) == offset && Get16(r, 20) == |comment|
  {
    Get32Put32(size);
    Get32Put32(offset);
  }

  // ------------------------------------------------- one member, two headers

  lemma RecordOk(pre: seq<byte>, m: Member, at: u32, post: seq<byte>)
    requires Fits(m) && at != 0xffff_ffff
    ensures var cd := pre + CentralPart(m, at) + post;
            && |pre| + |CentralPart(m, at)| <= |cd|
            && Get32(cd, |pre|) == CENTRAL_SIGNATURE
            && (CentralOk(cd, |pre|) <==> RecordReadable(m))
            && RecordSize(cd, |pre|) == |CentralPart(m, at)|
            && RecordName(cd, |pre|) == m.name
            && Get16(cd, |pre| + 8) == m.record.flags && Get16(cd, |pre| + 10) == m.scheme
            && Get32(cd, |pre| + 16) == m.crc
            && Get32(cd, |pre| + 20) == |m.packed| && Get32(cd, |pre| + 24) == m.size
            && Get32(cd, |pre| + 42) == at
  {
    hide RecordFields, ReaderSafe, Get16, Get32;
    var fields := RecordFields(m, at);
    var tail := m.name + m.record.extra + m.record.comment + post;
    var cd := pre + fields + tail;
    RecordFieldsAre(m, at);
    FieldsInside(pre, fields, tail, 0);
    FieldsInside(pre, fields, tail, 8);
    FieldsInside(pre, fields, tail, 10);
    FieldsInside(pre, fields, tail, 16);
    FieldsInside(pre, fields, tail, 20);
    FieldsInside(pre, fields, tail, 24);
    FieldsInside(pre, fields, tail, 28);
    FieldsInside(pre, fields, tail, 30);
    FieldsInside(pre, fields, tail, 32);
    FieldsInside(pre, fields, tail, 42);
    assert pre + CentralPart(m, at) + post == cd;
    assert cd[|pre| + 46..|pre| + 46 + |m.name|] == m.name;
  }

  /** The member's local part stands at `at`. */
  predicate Stands(zip: seq<byte>, at: nat, part: seq<byte>)
  {
    at + |part| <= |zip| && zip[at..at + |part|] == part
  }

  lemma LocalPartOk(zip: seq<byte>, m: Member, at: nat)
    requires Fits(m) && Stands(zip, at, LocalPart(m))
    ensures LocalOk(zip, at, m.name, m.scheme, |m.packed|) <==> m.local.flags % 2 == 0
    ensures at + 30 <= |zip|
    ensures DataOffset(zip, at) == at + 30 + |m.name| + |m.local.extra|
    ensures Stands(zip, at + 30 + |m.name| + |m.local.extra|, m.packed)
  {
    hide LocalFields, ReaderSafe, Get16, Get32;
    var h := LocalFields(m);
    LocalFieldsAre(m);
    assert h + m.name + m.local.extra + m.packed == h + m.name + (m.local.extra + m.packed);
    PartsOfSlice(zip, at, h, m.name, m.local.extra + m.packed);
    PartsOfSlice(zip, at, h + m.name, m.local.extra, m.packed);
    FieldOfSlice(zip, at, at + 30, 0);
    FieldOfSlice(zip, at, at + 30, 6);
    FieldOfSlice(zip, at, at + 30, 8);
    FieldOfSlice(zip, at, at + 30, 26);
    FieldOfSlice(zip, at, at + 30, 28);
  }

  /** The entry the reader makes of a member whose local header begins at `at`. */
  function ScanOf(m: Member, at: u32): Scan
    requires Fits(m)
  {
    Scan(m.name, at + 30 + |m.name| + |m.local.extra|, m.record.flags, m.scheme, m.crc, |m.packed|, m.size, at,
         IsFile(m))
  }

  lemma MemberScans(zip: seq<byte>, pre: seq<byte>, m: Member, at: u32, post: seq<byte>)
    requires Fits(m) && at != 0xffff_ffff && Stands(zip, at, LocalPart(m))
    ensures ScanAt(zip, pre + CentralPart(m, at) + post, |pre|) ==
            if Readable(m) then Some((ScanOf(m, at), |pre| + |CentralPart(m, at)|)) else None
  {
    hide CentralOk, LocalOk, Get16, Get32, RecordSize, RecordName, DataOffset, CentralPart, LocalPart, ReaderSafe;
    RecordOk(pre, m, at, post);
    LocalPartOk(zip, m, at);
  }

  // ---------------------------------------------------------- the directory

  /** The entries the reader makes of the members. */
  function Scans(members: seq<Member>, at: nat): seq<Scan>
    requires (forall m :: m in members ==> Fits(m)) && at + |Body(members)| < 0xffff_ffff
  {
    if members == [] then []
    else
      var m := members[0];
      var here := at + |m.before|;
      (if IsFile(m) then [ScanOf(m, here)] else []) + Scans(members[1..], here + |LocalPart(m)|)
  }

  ghost predicate AllReadable(members: seq<Member>)
  {
    forall m :: m in members ==> Readable(m)
  }

  lemma StandsInside(zip: seq<byte>, at: nat, a: seq<byte>, b: seq<byte>, c: seq<byte>)
    requires Stands(zip, at, a + b + c)
    ensures Stands(zip, at + |a|, b) && Stands(zip, at + |a| + |b|, c)
  {
    PartsOfSlice(zip, at, a, b, c);
  }

  lemma WalkTakes(zip: seq<byte>, cd: seq<byte>, cursor: nat, count: nat, s: Scan, next: nat, rest: seq<Scan>, end: nat)
    requires 0 < count && ScanAt(zip, cd, cursor) == Some((s, next))
    requires Walk(zip, cd, next, count - 1) == Some((rest, end))
    ensures Walk(zip, cd, cursor, count) == Some(((if s.keep then [s] else []) + rest, end))
  {
    hide ScanAt;
  }

  lemma WalkFails(zip: seq<byte>, cd: seq<byte>, cursor: nat, count: nat)
    requires 0 < count
    requires var head := ScanAt(zip, cd, cursor); head.None? || Walk(zip, cd, head.value.1, count - 1).None?
    ensures Walk(zip, cd, cursor, count).None?
  {
    hide ScanAt;
  }

  lemma ReadableCons(members: seq<Member>)
    requires members != []
    ensures AllReadable(members) <==> Readable(members[0]) && AllReadable(members[1..])
  {
    hide Readable;
    assert members == [members[0]] + members[1..];
  }

  lemma {:induction false} WalkLists(zip: seq<byte>, at: nat, pre: seq<byte>, members: seq<Member>)
    requires (forall m :: m in members ==> Fits(m)) && at + |Body(members)| < 0xffff_ffff
    requires Stands(zip, at, Body(members))
    ensures Walk(zip, pre + Records(members, at), |pre|, |members|) ==
            if AllReadable(members) then Some((Scans(members, at), |pre| + |Records(members, at)|)) else None
    decreases |members|
  {
    hide ScanAt, CentralPart, LocalPart, ScanOf, Readable, AllReadable, Walk, Stands, IsFile;
    if members == [] {
      NothingUnreadable();
      WalkNothing(zip, pre + Records(members, at), |pre|);
    } else {
      var m, rest := members[0], members[1..];
      var here := at + |m.before|;
      var next := here + |LocalPart(m)|;
      var record := CentralPart(m, here);
      StandsInside(zip, at, m.before, LocalPart(m), Body(rest));
      MemberScans(zip, pre, m, here, Records(rest, next));
      assert pre + Records(members, at) == pre + record + Records(rest, next);
      WalkLists(zip, next, pre + record, rest);
      ReadableCons(members);
      if AllReadable(members) {
        WalkTakes(zip, pre + record + Records(rest, next), |pre|, |members|, ScanOf(m, here), |pre + record|,
                  Scans(rest, next), |pre + record| + |Records(rest, next)|);
        KeepsFiles(m, here);
      } else {
        WalkFails(zip, pre + record + Records(rest, next), |pre|, |members|);
      }
    }
  }

  lemma NothingUnreadable()
    ensures AllReadable([])
  {}

  lemma WalkNothing(zip: seq<byte>, cd: seq<byte>, cursor: nat)
    ensures Walk(zip, cd, cursor, 0) == Some(([], cursor))
  {}

  lemma KeepsFiles(m: Member, at: u32)
    requires Fits(m)
    ensures ScanOf(m, at).keep == IsFile(m)
  {}

  // -------------------------------------------------------------- the ending

  lemma Signature(s: seq<byte>, k: nat)
    requires k + 4 <= |s|
    ensures s[k..k + 4] == [0x50, 0x4b, 5, 6] <==> Get32(s, k) == END_SIGNATURE
  {
    var sig := s[k..k + 4];
    assert s[k] == sig[0] && s[k + 1] == sig[1] && s[k + 2] == sig[2] && s[k + 3] == sig[3];
    FourDigits(s[k], s[k + 1], s[k + 2], s[k + 3]);
  }

  lemma FourDigits(a: byte, b: byte, c: byte, d: byte)
    ensures a as int + 0x100 * (b as int) + 0x1_0000 * (c as int) + 0x100_0000 * (d as int) == 0x06054b50 <==>
            a == 0x50 && b == 0x4b && c == 5 && d == 6
  {}

  lemma EndsAtIs(s: seq<byte>, k: nat)
    ensures EndsAt(s, k) <==> EndAt(s, k)
  {
    if k + 22 <= |s| { Signature(s, k); }
    hide Get32;
  }

  lemma {:induction false} LastIsFound(s: seq<byte>, pos: nat, low: nat, k: nat)
    requires low <= k <= pos && pos + END_MIN <= |s| && EndAt(s, k)
    requires forall j: nat :: k < j <= pos ==> !EndAt(s, j)
    ensures FindEnd(s, pos, low) == Some(k)
    decreases pos
  {
    hide EndAt;
    if pos != k { LastIsFound(s, pos - 1, low, k); }
  }

  /** The last 65557 octets hold the end record, and behind it there is no other. */
  lemma EndingIsFound(front: seq<byte>, end: seq<byte>)
    requires 22 <= |end| <= END_SCAN_MAX && EndsAt(end, 0) && forall k: nat :: 0 < k ==> !EndsAt(end, k)
    ensures EndPosition(front + end) == Some(|front|)
  {
    hide EndsAt, EndPosition;
    assert (front + end)[|front|..] == end;
    EndInTail(front + end, |front|);
  }

  lemma EndInTail(zip: seq<byte>, at: nat)
    requires at + 22 <= |zip| <= at + END_SCAN_MAX
    requires EndsAt(zip[at..], 0) && forall k: nat :: 0 < k ==> !EndsAt(zip[at..], k)
    ensures EndPosition(zip) == Some(at)
  {
    hide EndAt, EndsAt, FindEnd, Get16, Get32;
    var tailSize := if |zip| > END_SCAN_MAX then END_SCAN_MAX else |zip|;
    var tail := zip[|zip| - tailSize..];
    var k := at - (|zip| - tailSize);
    assert tail[k..] == zip[at..];
    LastEnd(tail, k);
    LastIsFound(tail, tailSize - END_MIN, 0, k);
  }

  lemma LastEnd(tail: seq<byte>, k: nat)
    requires k + 22 <= |tail| && EndsAt(tail[k..], 0) && forall j: nat :: 0 < j ==> !EndsAt(tail[k..], j)
    ensures EndAt(tail, k)
    ensures forall j: nat :: k < j ==> !EndAt(tail, j)
  {
    EndInSlice(tail, k, k);
    EndsAtIs(tail[k..], 0);
    hide EndsAt;
    forall j: nat | k < j && j + END_MIN <= |tail|
      ensures !EndAt(tail, j)
    {
      EndInSlice(tail, k, j);
      EndsAtIs(tail[k..], j - k);
      hide EndAt;
    }
  }

  lemma EndPartIs(members: seq<Member>, e: Ending)
    requires Packable(members, e)
    ensures EndsAt(EndPart(members, e), 0)
    ensures var zip, at := Laid(members, e), |Front(members, e)|;
            && at + 22 <= |zip|
            && Get16(zip, at + 4) == Get16(zip, at + 6) == 0 && Get16(zip, at + 10) == |members|
            && Get32(zip, at + 12) == |Records(members, 0)|
            && Get32(zip, at + 16) == |Body(members)| + |e.before|
  {
    hide Get16, Get32, EndFields, Body, Records;
    var size, offset := |Records(members, 0)|, |Body(members)| + |e.before|;
    var fields := EndFields(|members|, e.countHere, size, offset, e.comment);
    var front := Front(members, e);
    EndFieldsAre(|members|, e.countHere, size, offset, e.comment);
    FieldsInside([], fields, e.comment, 0);
    FieldsInside([], fields, e.comment, 20);
    assert [] + fields + e.comment == EndPart(members, e);
    EndsAtIs(EndPart(members, e), 0);
    assert Laid(members, e) == front + fields + e.comment;
    FieldsInside(front, fields, e.comment, 4);
    FieldsInside(front, fields, e.comment, 6);
    FieldsInside(front, fields, e.comment, 10);
    FieldsInside(front, fields, e.comment, 12);
    FieldsInside(front, fields, e.comment, 16);
  }

  lemma PartsStand(members: seq<Member>, e: Ending)
    requires Packable(members, e)
    ensures Stands(Laid(members, e), 0, Body(members))
    ensures Stands(Laid(members, e), |Body(members)| + |e.before|, Records(members, 0))
  {
    hide Body, Records, EndPart;
    var zip := Laid(members, e);
    var body, records := Body(members), Records(members, 0);
    var more := records + e.between + EndPart(members, e);
    assert zip == body + e.before + more;
    assert zip == body + e.before + records + (e.between + EndPart(members, e));
  }

  /** Such an archive opens exactly when every member is readable, with an entry for every file. */
  lemma LaidOpens(members: seq<Member>, e: Ending)
    requires Packable(members, e) && Ends(members, e)
    ensures Opened(Laid(members, e)) == if AllReadable(members) then Some(Scans(members, 0)) else None
  {
    hide Get16, Get32, EndPosition, Walk, Body, Records, Scans, EndPart, EndsAt, Readable;
    var zip := Laid(members, e);
    var at := |Front(members, e)|;
    EndPartIs(members, e);
    EndingIsFound(Front(members, e), EndPart(members, e));
    PartsStand(members, e);
    WalkLists(zip, 0, [], members);
    assert [] + Records(members, 0) == Records(members, 0);
    assert Directory(zip, at) == Records(members, 0);
  }

  // ------------------------------------------------------------- the contents

  /** The entry says of the file what its central record says. */
  predicate Describes(s: Scan, m: Member)
  {
    && s.name == m.name && s.flags == m.record.flags && s.scheme == m.scheme && s.crc == m.crc
    && s.compressedSize == |m.packed| && s.uncompressedSize == m.size
  }

  lemma MemberFound(zip: seq<byte>, m: Member, at: u32)
    requires Fits(m) && Stands(zip, at, LocalPart(m))
    ensures var s := ScanOf(m, at);
            Describes(s, m) && Stands(zip, s.dataOffset, m.packed)
  {
    hide LocalPart, LocalOk, Stands;
    LocalPartOk(zip, m, at);
  }

  lemma FirstScans(members: seq<Member>, at: nat)
    requires (forall m :: m in members ==> Fits(m)) && at + |Body(members)| < 0xffff_ffff
    ensures members == [] ==> Scans(members, at) == [] && Files(members) == []
    ensures members != [] ==>
              && var m, rest := members[0], members[1..];
                 var here := at + |m.before|;
                 && Body(members) == m.before + LocalPart(m) + Body(rest)
                 && Scans(members, at) ==
                    (if IsFile(m) then [ScanOf(m, here)] else []) + Scans(rest, here + |LocalPart(m)|)
                 && Files(members) == (if IsFile(m) then [m] else []) + Files(rest)
  {
    hide IsFile, ScanOf, LocalPart;
  }

  lemma {:induction false} ScanFinds(zip: seq<byte>, at: nat, members: seq<Member>, k: nat)
    requires (forall m :: m in members ==> Fits(m)) && at + |Body(members)| < 0xffff_ffff
    requires Stands(zip, at, Body(members))
    ensures |Scans(members, at)| == |Files(members)|
    ensures k < |Files(members)| ==>
              && var s, m := Scans(members, at)[k], Files(members)[k];
                 Describes(s, m) && IsFile(m) && Stands(zip, s.dataOffset, m.packed)
    decreases |members|
  {
    FirstScans(members, at);
    hide LocalPart, IsFile, Stands, ScanOf, Describes, Body, Scans, Files;
    if members != [] {
      var m, rest := members[0], members[1..];
      var here := at + |m.before|;
      StandsInside(zip, at, m.before, LocalPart(m), Body(rest));
      MemberFound(zip, m, here);
      ScanFinds(zip, here + |LocalPart(m)|, rest, if IsFile(m) && k > 0 then k - 1 else k);
    }
  }

  /** The file's packed octets give plain ones that agree with its recorded size and CRC. */
  predicate Sound(m: Member, inflate: Inflater)
  {
    var plain := Plain(m, inflate);
    plain.Some? && |plain.value| == m.size && CrcOf(plain.value) == m.crc
  }

  lemma ContentsFound(zip: seq<byte>, s: Scan, m: Member, inflate: Inflater)
    requires Describes(s, m) && IsFile(m) && Stands(zip, s.dataOffset, m.packed)
    requires m.scheme == 0 ==> |m.packed| == m.size
    ensures Extracted(zip, inflate, s) == if Sound(m, inflate) then Plain(m, inflate) else None
  {
    hide CrcOf;
  }

  lemma {:induction false} FilesAreMembers(members: seq<Member>)
    ensures forall m :: m in Files(members) ==> m in members && IsFile(m)
    decreases |members|
  {
    hide IsFile;
    if members != [] { FilesAreMembers(members[1..]); }
  }

  /**
   * An archive of any making opens exactly when all its members are readable. It then lists its
   * files in order, each with its own fields, and finds in each what its packed octets give.
   */
  lemma ForeignArchive(members: seq<Member>, e: Ending, inflate: Inflater)
    requires Packable(members, e) && Ends(members, e)
    ensures Opened(Laid(members, e)).Some? <==> AllReadable(members)
    ensures AllReadable(members) ==>
              var zip, files := Laid(members, e), Files(members);
              var scans := Opened(zip).value;
              && |scans| == |files|
              && forall k: nat :: k < |files| ==>
                   && Describes(scans[k], files[k])
                   && scans[k].dataOffset + scans[k].compressedSize <= |zip|
                   && Extracted(zip, inflate, scans[k]) ==
                      if Sound(files[k], inflate) then Plain(files[k], inflate) else None
  {
    hide Opened, Ends, Body, Records, EndPart, Extracted, Sound, Plain, IsFile, ScanOf, Laid, Scans;
    LaidOpens(members, e);
    if AllReadable(members) {
      var zip, files := Laid(members, e), Files(members);
      var scans := Opened(zip).value;
      PartsStand(members, e);
      ScanFinds(zip, 0, members, 0);
      FilesAreMembers(members);
      forall k: nat | k < |files|
        ensures Describes(scans[k], files[k])
        ensures scans[k].dataOffset + scans[k].compressedSize <= |zip|
        ensures Extracted(zip, inflate, scans[k]) == if Sound(files[k], inflate) then Plain(files[k], inflate) else None
      {
        ScanFinds(zip, 0, members, k);
        assert files[k] in files;
        ContentsFound(zip, scans[k], files[k], inflate);
      }
    }
  }

  /** unifrog_zip_open_path and unifrog_zip_extract_entry_to_file: file number `index` is written out. */
  method Unpack(file: ByteFile, inflate: Inflater, index: nat, out: ByteFile,
                ghost members: seq<Member>, ghost e: Ending) returns (ok: bool)
    requires Packable(members, e) && Ends(members, e) && file.data == Laid(members, e)
    requires file != out && file.pos <= |file.data| && out.pos <= |out.data|
    modifies file`pos, out
    ensures ok <==> AllReadable(members) && index < |Files(members)| && Sound(Files(members)[index], inflate)
    ensures ok ==> out.data == Overlay(old(out.data), old(out.pos), Plain(Files(members)[index], inflate).value)
  {
    hide *;
    ForeignArchive(members, e, inflate);
    var zip := Open(file, inflate);
    if zip == null {
      return false;
    }
    ghost var scans := Opened(file.data).value;
    ok := Extract(zip, index, out, scans);
    SoundHasPlain(inflate, Files(members), index);
  }

  lemma SoundHasPlain(inflate: Inflater, files: seq<Member>, k: nat)
    ensures k < |files| && Sound(files[k], inflate) ==> Plain(files[k], inflate).Some?
  {
    hide CrcOf;
  }

  /** unifrog_zip_open_path and unifrog_zip_extract_name_to_file: the first file of that name is written out. */
  method UnpackNamed(file: ByteFile, inflate: Inflater, name: seq<byte>, out: ByteFile,
                     ghost members: seq<Member>, ghost e: Ending) returns (ok: bool)
    requires Packable(members, e) && Ends(members, e) && file.data == Laid(members, e)
    requires file != out && file.pos <= |file.data| && out.pos <= |out.data| && 0 !in name
    modifies file`pos, out
    ensures ok ==> exists k: nat :: IsFirst(Files(members), name, k)
    ensures forall k: nat :: IsFirst(Files(members), name, k) ==>
              && (ok <==> AllReadable(members) && Sound(Files(members)[k], inflate))
              && (ok ==> out.data == Overlay(old(out.data), old(out.pos), Plain(Files(members)[k], inflate).value))
  {
    hide *;
    ForeignArchive(members, e, inflate);
    FirstIsUnique(Files(members), name);
    var zip := Open(file, inflate);
    if zip == null {
      return false;
    }
    ghost var scans, files := Opened(file.data).value, Files(members);
    var index := Find(zip, name, scans);
    SameNames(scans, files, name);
    if index.None? {
      return false;
    }
    ok := Extract(zip, index.value, out, scans);
    SoundHasPlain(inflate, files, index.value);
    assert IsFirst(files, name, index.value);
  }

  predicate IsFirst(files: seq<Member>, name: seq<byte>, k: nat)
  {
    k < |files| && files[k].name == name && forall j: nat :: j < k ==> files[j].name != name
  }

  lemma FirstIsUnique(files: seq<Member>, name: seq<byte>)
    ensures forall j: nat, k: nat :: IsFirst(files, name, j) && IsFirst(files, name, k) ==> j == k
  {}

  /** Entries and files have the same first of a name. */
  lemma SameNames(scans: seq<Scan>, files: seq<Member>, name: seq<byte>)
    requires |scans| == |files| && forall k: nat :: k < |files| ==> Describes(scans[k], files[k])
    ensures forall k: nat :: IsFirst(files, name, k) <==>
              k < |scans| && scans[k].name == name && forall j: nat :: j < k ==> scans[j].name != name
  {
    forall k: nat | k < |files|
      ensures scans[k].name == files[k].name
    {}
  }
}
