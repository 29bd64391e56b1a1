/** What the reader finds in an archive after any run of the writer. */
module ZipRoundTrip {
  import opened Bytes
  import opened ZipDirectory
  import opened ZipFormat
  import opened ZipWriter

  /** One call of the writer's interface, with the outcomes of its input side. */
  datatype Add =
    | Data(name: seq<byte>, bytes: seq<byte>, t: DosTime, m: Memory)
    | Path(name: seq<byte>, input: Input, maximum: nat, t: DosTime, m: Memory)
  {
    function Content(): seq<byte> { if Data? then bytes else input.bytes }
  }

  datatype Item = Item(name: seq<byte>, bytes: seq<byte>)

  ghost function AfterAdd(st: WriterState, a: Add): (WriterState, bool)
  {
    match a
    case Data(name, bytes, t, m) => AfterAddData(st, name, bytes, t, m)
    case Path(name, input, maximum, t, m) => AfterAddPath(st, name, input, maximum, t, m)
  }

  /** The writer's state after a run of adds. */
  ghost function Run(st: WriterState, adds: seq<Add>): WriterState
    decreases |adds|
  {
    if adds == [] then st else Run(AfterAdd(st, adds[0]).0, adds[1..])
  }

  /** The adds of a run that reported success, with the octets they were given. */
  ghost function Succeeded(st: WriterState, adds: seq<Add>): seq<Item>
    decreases |adds|
  {
    if adds == [] then []
    else (if AfterAdd(st, adds[0]).1 then [Item(adds[0].name, adds[0].Content())] else []) +
         Succeeded(AfterAdd(st, adds[0]).0, adds[1..])
  }

  const Empty := WriterState([], [], 0)

  /** The file contains, at the entry's offset, its final header, its name and its octets. */
  ghost predicate Placed(data: seq<byte>, e: WriterEntry, item: Item)
  {
    && WriterValid(item.name) && e.name == item.name
    && e.crc == CrcOf(item.bytes) && e.size == |item.bytes| % 0x1_0000_0000
    && e.localOffset + LOCAL_FIXED + |item.name| + |item.bytes| <= |data|
    && data[e.localOffset..e.localOffset + LOCAL_FIXED + |item.name| + |item.bytes|] ==
       LocalEntry(item.name, DosTime(e.dosDate, e.dosTime), e.crc, e.size, item.bytes)
  }

  /** The writer's memory and its file agree on the items written so far. */
  ghost predicate Holds(st: WriterState, items: seq<Item>)
  {
    && ValidState(st)
    && |st.entries| == |items|
    && forall k :: 0 <= k < |items| ==> Placed(st.data, st.entries[k], items[k])
  }

  lemma PlacedStays(data: seq<byte>, more: seq<byte>, e: WriterEntry, item: Item)
    requires Placed(data, e, item)
    ensures Placed(data + more, e, item)
  {
    SliceOfAppend(data, more, e.localOffset, e.localOffset + LOCAL_FIXED + |item.name| + |item.bytes|);
  }

  lemma HoldsStays(st: WriterState, more: seq<byte>, items: seq<Item>)
    requires Holds(st, items)
    ensures Holds(st.(data := st.data + more), items)
  {
    hide Placed;
    forall k | 0 <= k < |items|
      ensures Placed(st.data + more, st.entries[k], items[k])
    {
      PlacedStays(st.data, more, st.entries[k], items[k]);
    }
  }

  lemma ReservedHolds(st: WriterState, grows: bool, items: seq<Item>)
    requires Holds(st, items)
    ensures Holds(Reserved(st, grows), items)
    ensures HasRoom(st, grows) ==> |st.entries| < Reserved(st, grows).capacity
  {}

  lemma FinishedHolds(st: WriterState, name: seq<byte>, t: DosTime, bytes: seq<byte>, copied: bool,
                      items: seq<Item>)
    requires Holds(st, items) && WriterValid(name) && |st.data| <= UINT32_MAX
    requires |st.entries| < st.capacity
    ensures var (after, ok) := Finished(st, name, t, bytes, copied);
            && ok == copied
            && Holds(after, if ok then items + [Item(name, bytes)] else items)
  {
    hide CrcOf;
    hide LocalHeader;
    var (after, ok) := Finished(st, name, t, bytes, copied);
    var entry := LocalEntry(name, t, CrcOf(bytes), |bytes| % 0x1_0000_0000, bytes);
    HoldsStays(st, entry, items);
    if ok {
      var e := after.entries[|items|];
      assert after.data[|st.data|..] == entry;
      assert Placed(after.data, e, Item(name, bytes));
      forall k | 0 <= k < |items|
        ensures Placed(after.data, after.entries[k], items[k])
      {
        assert after.entries[k] == st.entries[k];
      }
    }
  }

  /** Every add keeps what was written, and only a successful one adds to it. */
  lemma AddHolds(st: WriterState, a: Add, items: seq<Item>)
    requires Holds(st, items)
    ensures var (after, ok) := AfterAdd(st, a);
            Holds(after, if ok then items + [Item(a.name, a.Content())] else items)
  {
    hide Placed;
    hide CrcOf;
    hide LocalHeader;
    hide WriterValid;
    ReservedHolds(st, a.m.tableGrows, items);
    var r := Reserved(st, a.m.tableGrows);
    if WriterValid(a.name) && HasRoom(st, a.m.tableGrows) && |st.data| <= UINT32_MAX {
      FinishedHolds(r, a.name, a.t, a.Content(), a.m.nameCopied, items);
      NameFits(a.name);
      HoldsStays(r, LocalEntry(a.name, a.t, 0, 0, []), items);
      HoldsStays(r, LocalEntry(a.name, a.t, 0, 0, a.Content()), items);
    }
  }

  lemma NameFits(name: seq<byte>)
    requires WriterValid(name)
    ensures |name| <= WRITER_NAME_MAX
  {}

  lemma {:induction false} RunHolds(st: WriterState, adds: seq<Add>, items: seq<Item>)
    requires Holds(st, items)
    ensures Holds(Run(st, adds), items + Succeeded(st, adds))
    decreases |adds|
  {
    hide Holds;
    hide AfterAdd;
    if adds == [] {
      assert items + [] == items;
    } else {
      var (after, ok) := AfterAdd(st, adds[0]);
      AddHolds(st, adds[0], items);
      var head := if ok then [Item(adds[0].name, adds[0].Content())] else [];
      assert items + [] == items;
      RunHolds(after, adds[1..], items + head);
      assert items + head + Succeeded(after, adds[1..]) == items + (head + Succeeded(after, adds[1..]));
    }
  }

  // ------------------------------------------------- reading the directory

  /** The entry the reader lists for a written one. */
  function Listed(e: WriterEntry): Scan
  {
    Scan(e.name, e.localOffset + LOCAL_FIXED + |e.name|, 0, STORED, e.crc, e.size, e.size,
         e.localOffset, true)
  }

  lemma FieldsInside(pre: seq<byte>, mid: seq<byte>, post: seq<byte>, at: nat)
    ensures at + 2 <= |mid| ==> Get16(pre + mid + post, |pre| + at) == Get16(mid, at)
    ensures at + 4 <= |mid| ==> Get32(pre + mid + post, |pre| + at) == Get32(mid, at)
  {
    var s := pre + mid + post;
    assert s[|pre|..|pre| + |mid|] == mid;
    FieldOfSlice(s, |pre|, |pre| + |mid|, at);
  }

  /** The central record of an entry passes every check of the directory walk. */
  lemma CentralRecordOk(pre: seq<byte>, e: WriterEntry, post: seq<byte>)
    requires WriterValid(e.name) && |e.name| <= WRITER_NAME_MAX
    requires e.size != 0xffff_ffff && e.localOffset != 0xffff_ffff
    ensures var cd := pre + CentralRecord(e) + post;
            && CentralOk(cd, |pre|)
            && RecordSize(cd, |pre|) == |CentralRecord(e)|
            && RecordName(cd, |pre|) == e.name
            && Get16(cd, |pre| + 8) == Get16(cd, |pre| + 10) == 0
            && Get32(cd, |pre| + 16) == e.crc
            && Get32(cd, |pre| + 20) == Get32(cd, |pre| + 24) == e.size
            && Get32(cd, |pre| + 42) == e.localOffset
  {
    hide CentralRecord;
    hide ReaderSafe;
    hide WriterValid;
    hide Get16;
    hide Get32;
    var r := CentralRecord(e);
    var cd := pre + r + post;
    CentralRecordFields(e);
    WriterValidIsReaderSafe(e.name);
    FieldsInside(pre, r, post, 0);
    FieldsInside(pre, r, post, 8);
    FieldsInside(pre, r, post, 10);
    FieldsInside(pre, r, post, 16);
    FieldsInside(pre, r, post, 20);
    FieldsInside(pre, r, post, 24);
    FieldsInside(pre, r, post, 28);
    FieldsInside(pre, r, post, 30);
    FieldsInside(pre, r, post, 32);
    FieldsInside(pre, r, post, 42);
    assert cd[|pre| + CENTRAL_FIXED..|pre| + CENTRAL_FIXED + |e.name|] == r[CENTRAL_FIXED..];
  }

  lemma PartsOfSlice(s: seq<byte>, at: nat, a: seq<byte>, b: seq<byte>, c: seq<byte>)
    requires at + |a| + |b| + |c| <= |s| && s[at..at + |a| + |b| + |c|] == a + b + c
    ensures s[at..at + |a|] == a && s[at + |a|..at + |a| + |b|] == b
    ensures s[at + |a| + |b|..][..|c|] == c
  {
    var all := s[at..at + |a| + |b| + |c|];
    assert forall k :: 0 <= k < |all| ==> all[k] == s[at + k];
    assert all[..|a|] == a && all[|a|..|a| + |b|] == b && all[|a| + |b|..] == c;
    assert s[at..at + |a|] == all[..|a|];
    assert s[at + |a|..at + |a| + |b|] == all[|a|..|a| + |b|];
    assert s[at + |a| + |b|..][..|c|] == all[|a| + |b|..];
  }

  /** The local header of a placed entry agrees with its central record. */
  lemma LocalHeaderOk(zip: seq<byte>, e: WriterEntry, item: Item)
    requires Placed(zip, e, item) && |item.bytes| == e.size && |e.name| <= WRITER_NAME_MAX
    ensures LocalOk(zip, e.localOffset, e.name, STORED, e.size)
    ensures DataOffset(zip, e.localOffset) == e.localOffset + LOCAL_FIXED + |e.name|
    ensures zip[e.localOffset + LOCAL_FIXED + |e.name|..][..e.size] == item.bytes
  {
    hide LocalHeader;
    hide WriterValid;
    hide CrcOf;
    hide Get16;
    hide Get32;
    var at := e.localOffset;
    var h := LocalHeader(|e.name|, e.dosDate, e.dosTime, e.crc, e.size);
    LocalHeaderFields(|e.name|, e.dosDate, e.dosTime, e.crc, e.size);
    var entry := zip[at..at + LOCAL_FIXED + |e.name| + |item.bytes|];
    assert entry == h + e.name + item.bytes;
    PartsOfSlice(zip, at, h, e.name, item.bytes);
    hide LocalEntry;
    FieldOfSlice(zip, at, at + LOCAL_FIXED, 0);
    FieldOfSlice(zip, at, at + LOCAL_FIXED, 6);
    FieldOfSlice(zip, at, at + LOCAL_FIXED, 8);
    FieldOfSlice(zip, at, at + LOCAL_FIXED, 26);
    FieldOfSlice(zip, at, at + LOCAL_FIXED, 28);
  }

  lemma PlacedName(zip: seq<byte>, e: WriterEntry, item: Item)
    requires Placed(zip, e, item)
    ensures WriterValid(e.name) && |e.name| <= WRITER_NAME_MAX && !IsDirectoryName(e.name)
  {
    WriterValidIsReaderSafe(e.name);
  }

  lemma ScanFindsEntry(zip: seq<byte>, pre: seq<byte>, e: WriterEntry, post: seq<byte>, item: Item)
    requires Placed(zip, e, item) && |item.bytes| == e.size && |e.name| <= WRITER_NAME_MAX
    requires e.size != 0xffff_ffff && e.localOffset != 0xffff_ffff
    ensures ScanAt(zip, pre + CentralRecord(e) + post, |pre|) ==
            Some((Listed(e), |pre| + |CentralRecord(e)|))
  {
    hide CentralOk;
    hide LocalOk;
    hide Placed;
    hide Get16;
    hide Get32;
    hide RecordSize;
    hide RecordName;
    hide DataOffset;
    hide CentralRecord;
    hide WriterValid;
    PlacedName(zip, e, item);
    CentralRecordOk(pre, e, post);
    LocalHeaderOk(zip, e, item);
  }

  ghost predicate AllPlaced(zip: seq<byte>, entries: seq<WriterEntry>, items: seq<Item>)
  {
    && |entries| == |items|
    && forall k :: 0 <= k < |items| ==>
         && Placed(zip, entries[k], items[k]) && |items[k].bytes| == entries[k].size
         && entries[k].size != 0xffff_ffff && entries[k].localOffset != 0xffff_ffff
  }

  function AllListed(entries: seq<WriterEntry>): (r: seq<Scan>)
    ensures |r| == |entries| && forall k :: 0 <= k < |r| ==> r[k] == Listed(entries[k])
  {
    seq(|entries|, k requires 0 <= k < |entries| => Listed(entries[k]))
  }

  lemma {:induction false} WalkFindsAll(zip: seq<byte>, pre: seq<byte>, entries: seq<WriterEntry>,
                                        items: seq<Item>)
    requires AllPlaced(zip, entries, items)
    requires forall e :: e in entries ==> |e.name| <= WRITER_NAME_MAX
    ensures Walk(zip, pre + Central(entries), |pre|, |entries|) ==
            Some((AllListed(entries), |pre| + |Central(entries)|))
    decreases |entries|
  {
    hide ScanAt;
    hide CentralRecord;
    hide Placed;
    hide Listed;
    hide AllListed;
    hide AllPlaced;
    if entries == [] {
      NothingListed();
    } else {
      var e, rest := entries[0], entries[1..];
      var record := CentralRecord(e);
      PlacedRest(zip, entries, items);
      ScanFindsEntry(zip, pre, e, Central(rest), items[0]);
      assert pre + Central(entries) == pre + record + Central(rest);
      WalkFindsAll(zip, pre + record, rest, items[1..]);
      ListedCons(entries);
      hide Central;
      WalkCons(zip, pre + record + Central(rest), |pre|, |entries|, Listed(e), |pre + record|,
               AllListed(rest), |pre + record| + |Central(rest)|);
    }
  }

  lemma WalkCons(zip: seq<byte>, cd: seq<byte>, cursor: nat, count: nat, s: Scan, next: nat, rest: seq<Scan>, end: nat)
    requires 0 < count && ScanAt(zip, cd, cursor) == Some((s, next)) && s.keep
    requires Walk(zip, cd, next, count - 1) == Some((rest, end))
    ensures Walk(zip, cd, cursor, count) == Some(([s] + rest, end))
  {
    hide ScanAt;
  }

  lemma PlacedRest(zip: seq<byte>, entries: seq<WriterEntry>, items: seq<Item>)
    requires AllPlaced(zip, entries, items) && entries != []
    ensures |items| == |entries| && AllPlaced(zip, entries[1..], items[1..])
    ensures Placed(zip, entries[0], items[0]) && |items[0].bytes| == entries[0].size
    ensures entries[0].size != 0xffff_ffff && entries[0].localOffset != 0xffff_ffff
  {
    hide Placed;
  }

  lemma NothingListed()
    ensures AllListed([]) == []
  {}

  lemma ListedCons(entries: seq<WriterEntry>)
    requires entries != []
    ensures AllListed(entries) == [Listed(entries[0])] + AllListed(entries[1..]) && Listed(entries[0]).keep
  {}

  /** The end record is found at once: it is the last 22 octets and has no comment. */
  lemma EndIsFound(front: seq<byte>, count: u16, size: u32, offset: u32)
    ensures EndPosition(front + EndRecord(count, size, offset)) == Some(|front|)
    ensures var zip := front + EndRecord(count, size, offset);
            && Get16(zip, |front| + 4) == Get16(zip, |front| + 6) == 0
            && Get16(zip, |front| + 10) == count
            && Get32(zip, |front| + 12) == size
            && Get32(zip, |front| + 16) == offset
  {
    hide EndRecord, Get16, Get32;
    var end := EndRecord(count, size, offset);
    var zip := front + end;
    EndRecordFields(count, size, offset);
    FieldsBehind(front, end);
    assert EndAt(zip, |front|);
    hide EndAt;
    var lo := if |zip| > END_SCAN_MAX then |zip| - END_SCAN_MAX else 0;
    EndInSlice(zip, lo, |front|);
  }

  /** The fields of an end record behind something else. */
  lemma FieldsBehind(front: seq<byte>, end: seq<byte>)
    requires |end| == END_MIN
    ensures var zip := front + end;
            && Get32(zip, |front|) == Get32(end, 0)
            && Get16(zip, |front| + 4) == Get16(end, 4) && Get16(zip, |front| + 6) == Get16(end, 6)
            && Get16(zip, |front| + 10) == Get16(end, 10) && Get16(zip, |front| + 20) == Get16(end, 20)
            && Get32(zip, |front| + 12) == Get32(end, 12) && Get32(zip, |front| + 16) == Get32(end, 16)
  {
    hide Get16, Get32;
    var zip := front + end;
    assert zip[|front|..|zip|] == end;
    FieldOfSlice(zip, |front|, |zip|, 0);
    FieldOfSlice(zip, |front|, |zip|, 4);
    FieldOfSlice(zip, |front|, |zip|, 6);
    FieldOfSlice(zip, |front|, |zip|, 10);
    FieldOfSlice(zip, |front|, |zip|, 12);
    FieldOfSlice(zip, |front|, |zip|, 16);
    FieldOfSlice(zip, |front|, |zip|, 20);
  }

  lemma EndInSlice(zip: seq<byte>, lo: nat, pos: nat)
    requires lo <= pos && pos + END_MIN <= |zip|
    ensures EndAt(zip[lo..], pos - lo) <==> EndAt(zip, pos)
  {
    FieldOfSlice(zip, lo, |zip|, pos - lo);
    FieldOfSlice(zip, lo, |zip|, pos - lo + 20);
  }

  ghost predicate Closes(st: WriterState)
  {
    && (forall e :: e in st.entries ==> |e.name| <= WRITER_NAME_MAX)
    && |st.entries| <= WRITER_ENTRY_MAX
    && AfterClose(st).Some?
  }

  /** The octets of the archive after a run of adds and a close. */
  ghost function Zip(st: WriterState): seq<byte>
    requires Closes(st)
  {
    AfterClose(st).value
  }

  lemma PlacedFits(data: seq<byte>, e: WriterEntry, item: Item)
    requires Placed(data, e, item) && |data| <= UINT32_MAX
    ensures |data| >= LOCAL_FIXED && |item.bytes| == e.size
    ensures e.size != 0xffff_ffff && e.localOffset != 0xffff_ffff
  {
    hide LocalEntry;
    hide CrcOf;
    hide WriterValid;
  }

  /** In a file that closes, every size and offset fits its field. */
  lemma FieldsFit(st: WriterState, items: seq<Item>, more: seq<byte>)
    requires Holds(st, items) && Closes(st)
    ensures AllPlaced(st.data + more, st.entries, items)
    ensures |st.entries| > 0 ==> |st.data| >= LOCAL_FIXED
    ensures st.entries == [] ==> Central(st.entries) == []
  {
    hide Placed;
    hide ValidState;
    HoldsStays(st, more, items);
    forall k | 0 <= k < |items|
      ensures |st.data| >= LOCAL_FIXED && |items[k].bytes| == st.entries[k].size
      ensures st.entries[k].size != 0xffff_ffff && st.entries[k].localOffset != 0xffff_ffff
    {
      PlacedFits(st.data, st.entries[k], items[k]);
    }
  }

  lemma DirectoryIsCentral(st: WriterState)
    requires Closes(st)
    ensures EndPosition(Zip(st)) == Some(|st.data| + |Central(st.entries)|)
    ensures var e := |st.data| + |Central(st.entries)|;
            && Get16(Zip(st), e + 4) == Get16(Zip(st), e + 6) == 0
            && Get16(Zip(st), e + 10) == |st.entries|
            && Get32(Zip(st), e + 12) == |Central(st.entries)|
            && Get32(Zip(st), e + 16) == |st.data|
    ensures Directory(Zip(st), |st.data| + |Central(st.entries)|) == Central(st.entries)
  {
    hide Get16;
    hide Get32;
    hide EndPosition;
    hide Central;
    var central := Central(st.entries);
    EndIsFound(st.data + central, |st.entries|, |central|, |st.data|);
    assert Zip(st)[|st.data|..|st.data| + |central|] == central;
  }

  /** A closed archive opens exactly when its directory does not begin at offset 0xffffffff. */
  lemma ClosedOpens(st: WriterState, items: seq<Item>)
    requires Holds(st, items) && Closes(st)
    ensures Opened(Zip(st)).Some? <==> |st.data| != 0xffff_ffff
    ensures |st.data| != 0xffff_ffff ==> Opened(Zip(st)) == Some(AllListed(st.entries))
  {
    hide Get16;
    hide Get32;
    hide EndPosition;
    hide Walk;
    hide Placed;
    hide CentralRecord;
    hide EndRecord;
    var central := Central(st.entries);
    var more := central + EndRecord(|st.entries|, |central|, |st.data|);
    assert Zip(st) == st.data + more;
    FieldsFit(st, items, more);
    DirectoryIsCentral(st);
    WalkFindsAll(Zip(st), [], st.entries, items);
    assert [] + central == central;
  }

  /** Extracting entry k of the opened archive gives the octets the k-th successful add was given. */
  lemma ExtractsItem(st: WriterState, items: seq<Item>, inflate: Inflater, k: nat)
    requires Holds(st, items) && Closes(st) && k < |items|
    ensures st.entries[k].name == items[k].name && st.entries[k].crc == CrcOf(items[k].bytes)
    ensures var s := Listed(st.entries[k]);
            && s.dataOffset + s.compressedSize <= |Zip(st)|
            && Extracted(Zip(st), inflate, s) == Some(items[k].bytes)
  {
    hide LocalEntry;
    hide CrcOf;
    hide WriterValid;
    hide Central;
    hide EndRecord;
    var central := Central(st.entries);
    var more := central + EndRecord(|st.entries|, |central|, |st.data|);
    assert Zip(st) == st.data + more;
    FieldsFit(st, items, more);
    assert Placed(Zip(st), st.entries[k], items[k]);
    PlacedName(Zip(st), st.entries[k], items[k]);
    LocalHeaderOk(Zip(st), st.entries[k], items[k]);
    var s := Listed(st.entries[k]);
    assert Zip(st)[s.dataOffset..][..s.compressedSize] ==
           Zip(st)[s.dataOffset..s.dataOffset + s.compressedSize];
  }

  /**
   * The round trip. After any run of adds, successful or not, a close that succeeds with a
   * directory offset below 0xffffffff leaves an archive that opens, lists exactly the successful
   * adds in order, and gives every one of them back octet for octet with its CRC.
   */
  lemma RoundTrip(adds: seq<Add>, inflate: Inflater)
    ensures var st, items := Run(Empty, adds), Succeeded(Empty, adds);
            && Holds(st, items)
            && (Closes(st) && |st.data| != 0xffff_ffff ==>
                  && Opened(Zip(st)).Some?
                  && var scans := Opened(Zip(st)).value;
                     && |scans| == |items|
                     && forall k :: 0 <= k < |items| ==>
                          && scans[k].name == items[k].name
                          && scans[k].crc == CrcOf(items[k].bytes)
                          && scans[k].dataOffset + scans[k].compressedSize <= |Zip(st)|
                          && Extracted(Zip(st), inflate, scans[k]) == Some(items[k].bytes))
  {
    hide Opened;
    hide Extracted;
    hide CrcOf;
    hide Zip;
    hide Closes;
    var st, items := Run(Empty, adds), Succeeded(Empty, adds);
    RunHolds(Empty, adds, []);
    assert [] + items == items;
    if Closes(st) && |st.data| != 0xffff_ffff {
      ClosedOpens(st, items);
      var scans := Opened(Zip(st)).value;
      forall k | 0 <= k < |items|
        ensures scans[k].name == items[k].name && scans[k].crc == CrcOf(items[k].bytes)
        ensures scans[k].dataOffset + scans[k].compressedSize <= |Zip(st)|
        ensures Extracted(Zip(st), inflate, scans[k]) == Some(items[k].bytes)
      {
        ExtractsItem(st, items, inflate, k);
      }
    }
  }

  /** With memory at hand the writer has room for exactly 256 entries. */
  lemma RoomForExactly256(st: WriterState)
    requires ValidState(st)
    ensures HasRoom(st, true) <==> |st.entries| < WRITER_ENTRY_MAX
  {}

  /**
   * The archives that close and do not open: a failed add leaves so many unreferenced octets
   * that the empty directory begins at offset 0xffffffff.
   */
  lemma UnopenableArchive(bytes: seq<byte>, t: DosTime)
    requires |bytes| == 0xffff_ffff - LOCAL_FIXED - 1
    ensures var add := Path([0x61], Input(Some(|bytes|), true, bytes, true), 0, t, Memory(true, true));
            var st := Run(Empty, [add]);
            Closes(st) && Opened(Zip(st)).None?
  {
    hide LocalHeader;
    hide Opened;
    var add := Path([0x61], Input(Some(|bytes|), true, bytes, true), 0, t, Memory(true, true));
    var st := AfterAdd(Empty, add).0;
    var name: seq<byte> := [0x61];
    forall i: nat, j: nat | Component(name, WriterSeparator, i, j)
      ensures Proper(name[i..j])
    {
      assert i == 0 && j == 1 && name[i..j] == name;
      assert name[0] != DOT;
    }
    assert WriterValid(name);
    assert |st.data| == 0xffff_ffff && st.entries == [];
    assert Run(st, []) == st && [add][1..] == [];
    ClosedOpens(st, []);
  }
}
