/** The streaming, store-only ZIP writer: local headers are back-patched, the directory comes last. */
module ZipWriter {
  import opened Bytes
  import opened ByteFiles
  import opened ZipFormat

  const UINT32_MAX := 0xffff_ffff
  const IO_BYTES := 4096

  /** The result of writer_dos_time. */
  datatype DosTime = DosTime(date: u16, time: u16)

  /** Outcomes of the two allocations of an add: the entry table's realloc and the name's malloc. */
  datatype Memory = Memory(tableGrows: bool, nameCopied: bool)

  /**
   * The input of add_path: what stat reports for a regular file, whether fopen succeeds, the
   * octets fread delivers, and whether the stream then ends with an error.
   */
  datatype Input = Input(regularSize: Option<nat>, opens: bool, bytes: seq<byte>, readError: bool)

  /** The writer between two calls: the file so far, the finished entries, the table's capacity. */
  datatype WriterState = WriterState(data: seq<byte>, entries: seq<WriterEntry>, capacity: nat)

  ghost predicate ValidState(st: WriterState)
  {
    && |st.entries| <= st.capacity <= WRITER_ENTRY_MAX
    && forall e :: e in st.entries ==> WriterValid(e.name)
  }

  function NextCapacity(capacity: nat): nat
  {
    if capacity == 0 then 16
    else if 2 * capacity > WRITER_ENTRY_MAX then WRITER_ENTRY_MAX else 2 * capacity
  }

  predicate HasRoom(st: WriterState, tableGrows: bool)
  {
    |st.entries| < st.capacity || (st.capacity < WRITER_ENTRY_MAX && tableGrows)
  }

  function Reserved(st: WriterState, tableGrows: bool): WriterState
  {
    if |st.entries| < st.capacity || !HasRoom(st, tableGrows) then st
    else st.(capacity := NextCapacity(st.capacity))
  }

  /** One local entry as it stands in the file once its header has been patched. */
  function LocalEntry(name: seq<byte>, t: DosTime, crc: u32, size: u32, bytes: seq<byte>): seq<byte>
    requires |name| <= WRITER_NAME_MAX
  {
    LocalHeader(|name|, t.date, t.time, crc, size) + name + bytes
  }

  /** The state after a finished entry; without memory for its name only the octets remain. */
  function Finished(st: WriterState, name: seq<byte>, t: DosTime, bytes: seq<byte>, copied: bool)
    : (r: (WriterState, bool))
    requires |name| <= WRITER_NAME_MAX && |st.data| <= UINT32_MAX
  {
    var size: u32 := |bytes| % 0x1_0000_0000;
    var data := st.data + LocalEntry(name, t, CrcOf(bytes), size, bytes);
    var e := WriterEntry(name, CrcOf(bytes), size, |st.data|, t.date, t.time);
    if copied then (st.(data := data, entries := st.entries + [e]), true)
    else (st.(data := data), false)
  }

  ghost function AfterAddData(st: WriterState, name: seq<byte>, bytes: seq<byte>, t: DosTime, m: Memory)
    : (r: (WriterState, bool))
  {
    if |bytes| > UINT32_MAX || !WriterValid(name) then (st, false)
    else if !HasRoom(st, m.tableGrows) || |st.data| > UINT32_MAX then
      (Reserved(st, m.tableGrows), false)
    else Finished(Reserved(st, m.tableGrows), name, t, bytes, m.nameCopied)
  }

  predicate InputAccepted(input: Input, maximum: nat)
  {
    && input.regularSize.Some?
    && input.regularSize.value <= UINT32_MAX
    && (maximum != 0 ==> input.regularSize.value <= maximum)
  }

  ghost function AfterAddPath(st: WriterState, name: seq<byte>, input: Input, maximum: nat,
                              t: DosTime, m: Memory): (r: (WriterState, bool))
  {
    if !InputAccepted(input, maximum) || !WriterValid(name) then (st, false)
    else if !HasRoom(st, m.tableGrows) || |st.data| > UINT32_MAX then
      (Reserved(st, m.tableGrows), false)
    else
      var r := Reserved(st, m.tableGrows);
      if !input.opens then (r.(data := r.data + LocalEntry(name, t, 0, 0, [])), false)
      else if input.readError then (r.(data := r.data + LocalEntry(name, t, 0, 0, input.bytes)), false)
      else Finished(r, name, t, input.bytes, m.nameCopied)
  }

  /** The finished archive, or None when a 32-bit offset does not suffice. */
  function AfterClose(st: WriterState): Option<seq<byte>>
    requires forall e :: e in st.entries ==> |e.name| <= WRITER_NAME_MAX
    requires |st.entries| <= WRITER_ENTRY_MAX
  {
    var central := Central(st.entries);
    if |st.data| > UINT32_MAX || |st.data| + |central| > UINT32_MAX then None
    else Some(st.data + central + EndRecord(|st.entries|, |central|, |st.data|))
  }

  /** Rewriting offset 14..26 of a header written with zeros gives the header with its final fields. */
  lemma PatchedHeader(base: seq<byte>, name: seq<byte>, t: DosTime, crc: u32, size: u32, bytes: seq<byte>)
    requires |name| <= WRITER_NAME_MAX
    ensures Overlay(base + LocalEntry(name, t, 0, 0, bytes), |base| + 14,
                    Put32(crc) + Put32(size) + Put32(size))
            == base + LocalEntry(name, t, crc, size, bytes)
  {
    var fields := Put32(crc) + Put32(size) + Put32(size);
    var h0 := LocalHeader(|name|, t.date, t.time, 0, 0);
    var h := LocalHeader(|name|, t.date, t.time, crc, size);
    assert h[14..26] == fields;
    assert forall k :: 0 <= k < LOCAL_FIXED && !(14 <= k < 26) ==> h0[k] == h[k];
    hide LocalHeader, Put32;
    OverlayInside(base, h0, h, name + bytes, 14, fields);
    assert base + LocalEntry(name, t, 0, 0, bytes) == base + h0 + (name + bytes);
    assert base + LocalEntry(name, t, crc, size, bytes) == base + h + (name + bytes);
  }

  lemma OverlayInside(base: seq<byte>, h0: seq<byte>, h: seq<byte>, rest: seq<byte>, at: nat, fields: seq<byte>)
    requires |h0| == |h| && at + |fields| <= |h| && h[at..at + |fields|] == fields
    requires forall k :: 0 <= k < |h| && !(at <= k < at + |fields|) ==> h0[k] == h[k]
    ensures Overlay(base + h0 + rest, |base| + at, fields) == base + h + rest
  {
    var r, after := Overlay(base + h0 + rest, |base| + at, fields), base + h + rest;
    forall k | 0 <= k < |after| ensures r[k] == after[k] {
      if |base| + at <= k < |base| + at + |fields| {
        assert h[at..at + |fields|][k - |base| - at] == h[k - |base|];
      } else if |base| <= k < |base| + |h| {
        assert h0[k - |base|] == h[k - |base|];
      }
    }
  }

  lemma EntryGrows(base: seq<byte>, name: seq<byte>, t: DosTime, bytes: seq<byte>, more: seq<byte>)
    requires |name| <= WRITER_NAME_MAX
    ensures base + LocalEntry(name, t, 0, 0, bytes) + more ==
            base + LocalEntry(name, t, 0, 0, bytes + more)
  {
    assert LocalEntry(name, t, 0, 0, bytes) + more == LocalEntry(name, t, 0, 0, bytes + more);
  }

  lemma EntryBegins(base: seq<byte>, name: seq<byte>, t: DosTime)
    requires |name| <= WRITER_NAME_MAX
    ensures base + LocalHeader(|name|, t.date, t.time, 0, 0) + name ==
            base + LocalEntry(name, t, 0, 0, [])
  {
    assert LocalEntry(name, t, 0, 0, []) == LocalHeader(|name|, t.date, t.time, 0, 0) + name;
  }

  lemma NoCentral()
    ensures Central([]) == []
  {}

  lemma {:induction false} CentralAppend(entries: seq<WriterEntry>, e: WriterEntry)
    requires |e.name| <= WRITER_NAME_MAX
    requires forall x :: x in entries ==> |x.name| <= WRITER_NAME_MAX
    ensures Central(entries + [e]) == Central(entries) + CentralRecord(e)
    decreases |entries|
  {
    if entries == [] {
      assert entries + [e] == [e];
      assert [e][1..] == [];
    } else {
      assert (entries + [e])[1..] == entries[1..] + [e];
      CentralAppend(entries[1..], e);
    }
  }

  /** writer_name_valid. */
  method NameValid(name: seq<byte>) returns (ok: bool)
    ensures ok <==> WriterValid(name)
  {
    assert |name| > 0 && (name[0] == SLASH) ==> Component(name, WriterSeparator, 0, 0);
    if |name| == 0 || name[0] == SLASH || name[0] == BACKSLASH || |name| > WRITER_NAME_MAX {
      return false;
    }
    var segment := 0;
    for i := 0 to |name|
      invariant segment <= i
      invariant i - segment == 0 || name[i - segment - 1] == SLASH
      invariant forall k :: i - segment <= k < i ==> name[k] != SLASH
      invariant forall k :: 0 <= k < i ==> name[k] != BACKSLASH && name[k] != COLON &&
                                           name[k] != CR && name[k] != LF && name[k] != 0
      invariant forall a: nat, b: nat :: b < i && Component(name, WriterSeparator, a, b) ==>
                  Proper(name[a..b])
    {
      var c := name[i];
      if c == BACKSLASH || c == COLON || c == CR || c == LF || c == 0 {
        return false;
      }
      if c == SLASH {
        ghost var start := i - segment;
        assert Component(name, WriterSeparator, start, i);
        assert forall a: nat :: Component(name, WriterSeparator, a, i) ==> a == start;
        if segment == 0 || (segment == 1 && name[i - 1] == DOT) ||
           (segment == 2 && name[i - 2] == DOT && name[i - 1] == DOT) {
          return false;
        }
        segment := 0;
      } else {
        segment := segment + 1;
      }
    }
    ghost var start, n := |name| - segment, |name|;
    assert Component(name, WriterSeparator, start, n);
    assert forall a: nat :: Component(name, WriterSeparator, a, n) ==> a == start;
    ok := segment > 0 && !(segment == 1 && name[|name| - 1] == DOT) &&
          !(segment == 2 && name[|name| - 2] == DOT && name[|name| - 1] == DOT);
  }

  class Writer {
    const file: ByteFile
    var entries: seq<WriterEntry>
    var capacity: nat
    var pending: DosTime

    ghost function State(): WriterState
      reads this, file
    {
      WriterState(file.data, entries, capacity)
    }

    ghost predicate Valid()
      reads this, file
    {
      ValidState(State()) && file.pos == |file.data|
    }

    constructor (file: ByteFile)
      requires file.data == [] && file.pos == 0
      ensures Valid() && this.file == file
      ensures State() == WriterState([], [], 0)
    {
      this.file := file;
      entries, capacity, pending := [], 0, DosTime(0, 0);
    }

    /** writer_reserve. */
    method Reserve(tableGrows: bool) returns (ok: bool)
      requires Valid()
      modifies this`capacity
      ensures Valid()
      ensures ok == HasRoom(old(State()), tableGrows)
      ensures State() == Reserved(old(State()), tableGrows)
    {
      if |entries| < capacity {
        return true;
      }
      if capacity >= WRITER_ENTRY_MAX {
        return false;
      }
      var next := if capacity != 0 then capacity * 2 else 16;
      if next > WRITER_ENTRY_MAX {
        next := WRITER_ENTRY_MAX;
      }
      if !tableGrows {
        return false;
      }
      capacity := next;
      ok := true;
    }

    /** writer_begin_entry. */
    method BeginEntry(name: seq<byte>, now: DosTime, tableGrows: bool) returns (offset: Option<nat>)
      requires Valid()
      modifies this`capacity, this`pending, file
      ensures Valid()
      ensures offset.Some? <==> WriterValid(name) && HasRoom(old(State()), tableGrows) &&
                                |old(file.data)| <= UINT32_MAX
      ensures offset.Some? ==>
                && offset.value == |old(file.data)|
                && pending == now
                && var r := Reserved(old(State()), tableGrows);
                   State() == r.(data := r.data + LocalEntry(name, now, 0, 0, []))
      ensures offset.None? ==>
                State() == if WriterValid(name) then Reserved(old(State()), tableGrows) else old(State())
    {
      var valid := NameValid(name);
      if !valid {
        return None;
      }
      var room := Reserve(tableGrows);
      if !room || file.pos > UINT32_MAX {
        return None;
      }
      var at := file.pos;
      pending := now;
      hide LocalHeader;
      hide WriterValid;
      EntryBegins(file.data, name, now);
      file.Write(LocalHeader(|name|, now.date, now.time, 0, 0));
      file.Write(name);
      offset := Some(at);
    }

    /** writer_finish_entry: back-patch the header, come back to the end, remember the entry. */
    method FinishEntry(name: seq<byte>, headerOffset: nat, crc: u32, size: u32, nameCopied: bool,
                       ghost base: seq<byte>, ghost bytes: seq<byte>) returns (ok: bool)
      requires Valid() && WriterValid(name) && |entries| < capacity
      requires headerOffset == |base| <= UINT32_MAX
      requires file.data == base + LocalEntry(name, pending, 0, 0, bytes)
      modifies this`entries, file
      ensures Valid() && ok == nameCopied
      ensures State() ==
              var data := base + LocalEntry(name, pending, crc, size, bytes);
              var e := WriterEntry(name, crc, size, headerOffset, pending.date, pending.time);
              old(State()).(data := data,
                            entries := if ok then old(entries) + [e] else old(entries))
    {
      var end := file.pos;
      PatchedHeader(base, name, pending, crc, size, bytes);
      file.pos := headerOffset + 14;
      file.Write(Put32(crc) + Put32(size) + Put32(size));
      file.pos := end;
      if !nameCopied {
        return false;
      }
      entries := entries + [WriterEntry(name, crc, size, headerOffset, pending.date, pending.time)];
      ok := true;
    }

    /** unifrog_zip_writer_add_data. */
    method AddData(name: seq<byte>, bytes: seq<byte>, now: DosTime, m: Memory) returns (ok: bool)
      requires Valid()
      modifies this, file
      ensures Valid()
      ensures (State(), ok) == AfterAddData(old(State()), name, bytes, now, m)
    {
      hide CrcOf;
      hide LocalEntry;
      if |bytes| > UINT32_MAX {
        return false;
      }
      ghost var base := file.data;
      var offset := BeginEntry(name, now, m.tableGrows);
      if offset.None? {
        return false;
      }
      EntryGrows(base, name, now, [], bytes);
      file.Write(bytes);
      assert [] + bytes == bytes;
      ok := FinishEntry(name, offset.value, CrcOf(bytes), |bytes|, m.nameCopied, base, bytes);
    }

    /** The copy loop of add_path: a 4096-octet buffer, ended by a short read. */
    method CopyInput(input: Input, name: seq<byte>, ghost base: seq<byte>)
      returns (ok: bool, crc: u32, total: u32)
      requires Valid() && |name| <= WRITER_NAME_MAX
      requires file.data == base + LocalEntry(name, pending, 0, 0, [])
      modifies file
      ensures Valid() && ok == !input.readError
      ensures file.data == base + LocalEntry(name, pending, 0, 0, input.bytes)
      ensures ok ==> crc == CrcOf(input.bytes) && total == |input.bytes| % 0x1_0000_0000
    {
      hide Crc32;
      hide LocalEntry;
      hide WriterValid;
      var stream := new ByteFile(input.bytes);
      crc, total := 0, 0;
      CrcOfNothing();
      assert input.bytes[..0] == [];
      while true
        invariant file.pos == |file.data| && fresh(stream) && stream.data == input.bytes
        invariant stream.pos <= |input.bytes|
        invariant crc == CrcOf(input.bytes[..stream.pos]) && total == stream.pos % 0x1_0000_0000
        invariant file.data == base + LocalEntry(name, pending, 0, 0, input.bytes[..stream.pos])
        decreases |input.bytes| - stream.pos
      {
        ghost var before := stream.pos;
        var got := stream.Read(IO_BYTES);
        assert input.bytes[..stream.pos] == input.bytes[..before] + got;
        Crc32Append(0, input.bytes[..before], got);
        EntryGrows(base, name, pending, input.bytes[..before], got);
        if |got| > 0 {
          crc := Crc32(crc, got);
          file.Write(got);
          total := (total + |got|) % 0x1_0000_0000;
        }
        if |got| < IO_BYTES {
          assert input.bytes[..stream.pos] == input.bytes;
          return !input.readError, crc, total;
        }
      }
    }

    /** unifrog_zip_writer_add_path. */
    method AddPath(name: seq<byte>, input: Input, maximum: nat, now: DosTime, m: Memory)
      returns (ok: bool)
      requires Valid()
      modifies this, file
      ensures Valid()
      ensures (State(), ok) == AfterAddPath(old(State()), name, input, maximum, now, m)
    {
      hide Crc32;
      hide LocalEntry;
      if input.regularSize.None? || input.regularSize.value > UINT32_MAX ||
         (maximum != 0 && input.regularSize.value > maximum) {
        return false;
      }
      ghost var base := file.data;
      var offset := BeginEntry(name, now, m.tableGrows);
      if offset.None? {
        return false;
      }
      if !input.opens {
        return false;
      }
      var copied, crc, total := CopyInput(input, name, base);
      if !copied {
        return false;
      }
      ok := FinishEntry(name, offset.value, crc, total, m.nameCopied, base, input.bytes);
    }

    /** unifrog_zip_writer_close: the central directory and the end record. */
    method Close() returns (ok: bool)
      requires Valid()
      modifies file
      ensures ok == AfterClose(old(State())).Some?
      ensures ok ==> file.data == AfterClose(old(State())).value
    {
      hide CentralRecord, EndRecord, Central;
      var centralOffset := file.pos;
      if centralOffset > UINT32_MAX {
        return false;
      }
      WriteDirectory();
      var finalOffset := file.pos;
      if finalOffset > UINT32_MAX {
        return false;
      }
      file.Write(EndRecord(|entries|, finalOffset - centralOffset, centralOffset));
      ok := true;
    }

    /** The loop of close over the entries. */
    method WriteDirectory()
      requires Valid()
      modifies file
      ensures file.data == old(file.data) + Central(entries) && file.pos == |file.data|
    {
      hide CentralRecord, Central;
      ghost var base := file.data;
      var i := 0;
      NoCentral();
      while i < |entries|
        invariant 0 <= i <= |entries| && entries == old(entries)
        invariant file.data == base + Central(entries[..i]) && file.pos == |file.data|
      {
        var e := entries[i];
        assert entries[..i + 1] == entries[..i] + [e];
        CentralAppend(entries[..i], e);
        CentralRecordFields(e);
        file.Write(CentralRecord(e)[..CENTRAL_FIXED]);
        file.Write(e.name);
        assert CentralRecord(e)[..CENTRAL_FIXED] + e.name == CentralRecord(e);
        i := i + 1;
      }
      assert entries[..i] == entries;
    }
  }
}
