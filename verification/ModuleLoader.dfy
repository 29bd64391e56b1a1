// Loading a core module: the header is checked against the format and the memory slot, and the
// file is then read to its fixed address, padded by a few zero octets at most, and its BSS cleared.

module ModuleLoader {
  import opened Bytes
  import opened AppMemory

  const HEADER_SIZE: nat := 244
  const ID_AT: nat := 52
  const ID_MAX: nat := 32
  const EXTENSIONS_AT: nat := 84
  const EXTENSIONS_MAX: nat := 128
  const MAGIC: u32 := 0x5546434f
  const FORMAT_VERSION: u32 := 1
  const ENDIAN_MARK: u32 := 0x12345678
  const READ_CHUNK: nat := 0x4_0000
  const PAD_MAX: nat := 64

  datatype Header = Header(magic: u32, headerSize: u32, formatVersion: u32, endianMark: u32,
                           requiredAbi: u32, flags: u32,
                           load: u32, fileEnd: u32, memoryEnd: u32, bss: u32, bssEnd: u32, entry: u32, gp: u32,
                           id: seq<byte>, extensions: seq<byte>, requiredAbiSize: u32)

  datatype LoadError = Ready | NoAppMemory | Io | Format | Abi | Id | Range

  // The header as the file holds it, little-endian.
  function Parse(s: seq<byte>): Header
    requires |s| >= HEADER_SIZE
  {
    Header(Get32(s, 0), Get32(s, 4), Get32(s, 8), Get32(s, 12), Get32(s, 16), Get32(s, 20),
           Get32(s, 24), Get32(s, 28), Get32(s, 32), Get32(s, 36), Get32(s, 40), Get32(s, 44), Get32(s, 48),
           s[52..84], s[84..212], Get32(s, 216))
  }

  // ---------------------------------------------------------------- the checks

  predicate LayoutValid(h: Header)
  {
    && h.magic == MAGIC && h.headerSize as nat >= HEADER_SIZE && h.formatVersion == FORMAT_VERSION
    && h.endianMark == ENDIAN_MARK && h.flags % 2 == 1
    && h.id != [] && h.id[0] != 0 && 0 in h.id && 0 in h.extensions
    && h.fileEnd > h.load && h.fileEnd - h.load >= HEADER_SIZE
    && h.memoryEnd >= h.fileEnd && h.bss >= h.fileEnd && h.bssEnd >= h.bss && h.bssEnd <= h.memoryEnd
    && h.entry >= h.load && h.entry < h.fileEnd && h.entry % 4 == 0 && h.fileEnd - h.entry >= 4
    && h.gp >= h.load
  }

  method HeaderLayoutValid(h: Header) returns (ok: bool)
    requires |h.id| == ID_MAX && |h.extensions| == EXTENSIONS_MAX
    ensures ok == LayoutValid(h)
  {
    var idTerminated, extensionsTerminated := false, false;
    for i := 0 to ID_MAX
      invariant idTerminated == (0 in h.id[..i])
    {
      idTerminated := idTerminated || h.id[i] == 0;
    }
    for i := 0 to EXTENSIONS_MAX
      invariant extensionsTerminated == (0 in h.extensions[..i])
    {
      extensionsTerminated := extensionsTerminated || h.extensions[i] == 0;
    }
    assert h.id[..ID_MAX] == h.id && h.extensions[..EXTENSIONS_MAX] == h.extensions;
    ok := && h.magic == MAGIC && h.headerSize as nat >= HEADER_SIZE && h.formatVersion == FORMAT_VERSION
          && h.endianMark == ENDIAN_MARK && h.flags % 2 == 1
          && h.id[0] != 0 && idTerminated && extensionsTerminated
          && h.fileEnd > h.load && h.fileEnd - h.load >= HEADER_SIZE
          && h.memoryEnd >= h.fileEnd && h.bss >= h.fileEnd && h.bssEnd >= h.bss && h.bssEnd <= h.memoryEnd
          && h.entry >= h.load && h.entry < h.fileEnd && h.entry % 4 == 0 && h.fileEnd - h.entry >= 4
          && h.gp >= h.load;
  }

  // A 32-bit range inside a slot; a slot whose end does not fit in 32 bits holds no range.
  predicate RangeValid(start: int, end: int, base: nat, bytes: nat)
  {
    if base > WORD - 1 - bytes then false
    else
      var slotEnd := (base + bytes) % WORD;
      !(end < start) && !(start < base) && !(end > slotEnd)
  }

  lemma RangeValidIff(start: int, end: int, base: nat, bytes: nat)
    ensures RangeValid(start, end, base, bytes) <==>
            base + bytes < WORD && base <= start <= end <= base + bytes
  {
    if base + bytes < WORD { assert (base + bytes) % WORD == base + bytes; }
  }

  function Wrap(a: nat): nat { a % WORD }

  predicate RangesFit(h: Header, slot: Slot)
  {
    && RangeValid(h.load, h.fileEnd, slot.base, slot.bytes)
    && RangeValid(h.load, h.memoryEnd, slot.base, slot.bytes)
    && RangeValid(h.bss, h.bssEnd, slot.base, slot.bytes)
    && RangeValid(h.entry, Wrap(h.entry + 4), slot.base, slot.bytes)
    && RangeValid(h.gp, Wrap(h.gp + 4), slot.base, slot.bytes)
  }

  // What the header alone decides.
  function HeaderVerdict(h: Header, slot: Slot, compatible: (u32, u32) -> bool, minAbiSize: u32, expected: seq<byte>): LoadError
    requires |h.id| == ID_MAX
  {
    if !LayoutValid(h) then Format
    else if !compatible(h.requiredAbi, if h.requiredAbiSize != 0 then h.requiredAbiSize else minAbiSize) then Abi
    else if expected != [] && CString(h.id[ID_MAX - 1 := 0]) != expected then Id
    else if h.load as nat != slot.base || !RangesFit(h, slot) then Range
    else Ready
  }

  // What the loader must answer for a file that can be read.
  function Verdict(data: seq<byte>, slot: Option<Slot>, compatible: (u32, u32) -> bool, minAbiSize: u32,
                   expected: seq<byte>): LoadError
  {
    if slot.None? then NoAppMemory
    else if |data| < HEADER_SIZE then Io
    else
      var h := Parse(data);
      var checked := HeaderVerdict(h, slot.value, compatible, minAbiSize, expected);
      if checked != Ready then checked
      else if |data| + PAD_MAX < h.fileEnd - h.load then Io
      else Ready
  }

  // ---------------------------------------------------------------- reading

  // Nothing outside the given cells has changed.
  ghost predicate Confined(now: seq<byte>, was: seq<byte>, lo: int, hi: int)
  {
    |now| == |was| && forall i :: 0 <= i < |now| && !(lo <= i < hi) ==> now[i] == was[i]
  }

  lemma ConfinedChain(now: seq<byte>, mid: seq<byte>, was: seq<byte>, lo: int, hi: int, lo': int, hi': int)
    requires Confined(mid, was, lo', hi') && Confined(now, mid, lo, hi) && ((lo' <= lo && hi <= hi') || hi <= lo)
    ensures Confined(now, was, lo', hi')
  {
  }

  // A file whose reads may come short or fail: the n-th read is granted that many octets.
  class ModuleFile {
    const data: seq<byte>
    const grants: nat -> int
    var pos: nat
    var readCount: nat

    ghost predicate Valid()
      reads this
    {
      pos <= |data|
    }

    constructor (data: seq<byte>, grants: nat -> int)
      ensures Valid() && this.data == data && this.grants == grants && pos == 0
    {
      this.data := data;
      this.grants := grants;
      pos, readCount := 0, 0;
    }

    // read(2): negative on failure, zero only at the end of the file, and at most the chunk.
    method Read(a: array<byte>, at: nat, chunk: nat) returns (got: int)
      requires Valid() && 0 < chunk && at + chunk <= a.Length
      modifies this, a
      ensures Valid() && got <= chunk
      ensures readCount == old(readCount) + 1 && (got < 0 <==> grants(old(readCount)) < 0)
      ensures got < 0 ==> pos == old(pos)
      ensures got >= 0 ==> pos == old(pos) + got && a[at..at + got] == data[old(pos)..pos]
      ensures got == 0 ==> pos == |data|
      ensures Confined(a[..], old(a[..]), at, at + got)
    {
      var grant := grants(readCount);
      readCount := readCount + 1;
      if grant < 0 { return -1; }
      var left := |data| - pos;
      got := if left < chunk then left else chunk;
      if 0 < grant < got { got := grant; }
      forall i | 0 <= i < got { a[at + i] := data[pos + i]; }
      pos := pos + got;
    }
  }

  // One of the reads made from one count to another failed.
  ghost predicate Failed(grants: nat -> int, from: nat, to: nat)
  {
    exists n :: from <= n < to && grants(n) < 0
  }

  lemma OneMoreRead(grants: nat -> int, from: nat, to: nat)
    requires from <= to
    ensures Failed(grants, from, to + 1) <==> Failed(grants, from, to) || grants(to) < 0
  {
  }

  method ReadAvailable(file: ModuleFile, a: array<byte>, at: nat, bytes: nat) returns (ok: bool, done: nat)
    requires file.Valid() && at + bytes <= a.Length
    modifies file, a
    ensures file.Valid() && done <= bytes
    ensures old(file.readCount) <= file.readCount && (ok <==> !Failed(file.grants, old(file.readCount), file.readCount))
    ensures ok ==> done == if |file.data| - old(file.pos) < bytes then |file.data| - old(file.pos) else bytes
    ensures ok ==> file.pos == old(file.pos) + done && a[at..at + done] == file.data[old(file.pos)..file.pos]
    ensures Confined(a[..], old(a[..]), at, at + bytes)
  {
    hide Confined, Copied, Failed;
    ok, done := true, 0;
    NoReadFailed(file.grants, file.readCount);
    ghost var start, was := file.pos, a[..];
    NothingWritten(was, at, at + bytes);
    NothingCopied(was, at, file.data, start);
    while done < bytes
      invariant done <= bytes && file.Valid() && file.pos == start + done
      invariant old(file.readCount) <= file.readCount && !Failed(file.grants, old(file.readCount), file.readCount)
      invariant Copied(a[..], at, file.data, start, done)
      invariant Confined(a[..], was, at, at + bytes)
    {
      var chunk := bytes - done;
      if chunk > READ_CHUNK { chunk := READ_CHUNK; }
      ghost var before := a[..];
      OneMoreRead(file.grants, old(file.readCount), file.readCount);
      var got := file.Read(a, at + done, chunk);
      ghost var now := a[..];
      ConfinedChain(now, before, was, at + done, at + done + got, at, at + bytes);
      if got < 0 { return false, done; }
      assert a[at + done..at + done + got] == now[at + done..at + done + got];
      MoreCopied(before, now, at, file.data, start, done, got);
      if got == 0 { break; }
      done := done + got;
    }
    CopiedSlice(a[..], at, file.data, start, done);
    assert a[at..at + done] == a[..][at..at + done];
  }

  lemma NoReadFailed(grants: nat -> int, from: nat)
    ensures !Failed(grants, from, from)
  {
  }

  ghost predicate Copied(now: seq<byte>, at: nat, data: seq<byte>, from: nat, n: nat)
  {
    && at + n <= |now| && from + n <= |data|
    && forall i :: at <= i < at + n ==> now[i] == data[from + (i - at)]
  }

  lemma NothingCopied(now: seq<byte>, at: nat, data: seq<byte>, from: nat)
    requires at <= |now| && from <= |data|
    ensures Copied(now, at, data, from, 0)
  {
  }

  lemma MoreCopied(before: seq<byte>, now: seq<byte>, at: nat, data: seq<byte>, from: nat, n: nat, got: nat)
    requires Copied(before, at, data, from, n) && Confined(now, before, at + n, at + n + got)
    requires at + n + got <= |now| && from + n + got <= |data|
    requires now[at + n..at + n + got] == data[from + n..from + n + got]
    ensures Copied(now, at, data, from, n + got)
  {
    forall i | at + n <= i < at + n + got ensures now[i] == data[from + (i - at)] {
      assert now[i] == now[at + n..at + n + got][i - at - n] == data[from + n..from + n + got][i - at - n];
    }
  }

  lemma CopiedSlice(now: seq<byte>, at: nat, data: seq<byte>, from: nat, n: nat)
    requires Copied(now, at, data, from, n)
    ensures now[at..at + n] == data[from..from + n]
  {
  }

  method Zero(a: array<byte>, at: nat, count: nat)
    requires at + count <= a.Length
    modifies a
    ensures forall i :: 0 <= i < a.Length ==> a[i] == if at <= i < at + count then 0 else old(a[i])
  {
    forall i | at <= i < at + count { a[i] := 0; }
  }

  // ---------------------------------------------------------------- the memory image

  // Octet i of the loaded image: the file's, with the last octet of the module's name cleared and
  // zeros where the file is too short.
  function ImageOctet(data: seq<byte>, i: nat): byte
  {
    if i == ID_AT + ID_MAX - 1 then 0 else if i < |data| then data[i] else 0
  }

  // Memory as the entry point finds it. Addresses start at origin.
  ghost predicate Loaded(now: seq<byte>, was: seq<byte>, origin: nat, h: Header, data: seq<byte>)
  {
    && |now| == |was| && origin <= h.load as nat <= h.fileEnd as nat <= h.bss as nat <= h.bssEnd as nat <= origin + |now|
    && (forall i :: h.load - origin <= i < h.fileEnd - origin ==> now[i] == ImageOctet(data, i - (h.load - origin)))
    && (forall i :: h.bss - origin <= i < h.bssEnd - origin ==> now[i] == 0)
    && (forall i :: 0 <= i < |now| && !(h.load <= i + origin < h.fileEnd) && !(h.bss <= i + origin < h.bssEnd) ==>
          now[i] == was[i])
  }

  // What the checks establish about a header they let through.
  lemma AcceptedHeader(h: Header, slot: Slot)
    requires LayoutValid(h) && h.load as nat == slot.base && RangesFit(h, slot)
    ensures h.load + HEADER_SIZE <= h.fileEnd <= h.bss <= h.bssEnd <= h.memoryEnd
    ensures h.memoryEnd as nat <= slot.base + slot.bytes < WORD
    ensures h.gp + 4 <= slot.base + slot.bytes && h.load <= h.entry && h.entry + 4 <= h.fileEnd
  {
    RangeValidIff(h.load, h.memoryEnd, slot.base, slot.bytes);
    RangeValidIff(h.gp, Wrap(h.gp + 4), slot.base, slot.bytes);
  }

  // Copies the header, reads the rest behind it and pads.
  method FillImage(file: ModuleFile, memory: array<byte>, at: nat, size: nat, header: seq<byte>) returns (ok: bool)
    requires file.Valid() && file.pos == HEADER_SIZE <= |file.data|
    requires header == file.data[..HEADER_SIZE][ID_AT + ID_MAX - 1 := 0]
    requires HEADER_SIZE <= size && at + size <= memory.Length
    modifies file, memory
    ensures ok ==> forall i :: at <= i < at + size ==> memory[i] == ImageOctet(file.data, i - at)
    ensures old(file.readCount) <= file.readCount
    ensures ok <==> |file.data| + PAD_MAX >= size && !Failed(file.grants, old(file.readCount), file.readCount)
    ensures forall i :: 0 <= i < memory.Length && !(at <= i < at + size) ==> memory[i] == old(memory[i])
  {
    forall i | 0 <= i < HEADER_SIZE { memory[at + i] := header[i]; }
    ghost var copied := memory[..];
    var read, done := ReadAvailable(file, memory, at + HEADER_SIZE, size - HEADER_SIZE);
    if !read { return false; }
    ghost var filled := memory[..];
    Payload(copied, filled, file.data, at, size, done);
    if done < size - HEADER_SIZE {
      var missing := size - HEADER_SIZE - done;
      if missing > PAD_MAX { return false; }
      Zero(memory, at + HEADER_SIZE + done, missing);
    }
    ok := true;
    ImageIsThere(copied, memory[..], header, file.data, at, size, done);
    ghost var image := memory[..];
    assert forall i :: at <= i < at + size ==> image[i] == memory[i];
  }

  method LoadImage(file: ModuleFile, memory: array<byte>, origin: nat, h: Header, header: seq<byte>) returns (ok: bool)
    requires file.Valid() && file.pos == HEADER_SIZE <= |file.data|
    requires header == file.data[..HEADER_SIZE][ID_AT + ID_MAX - 1 := 0]
    requires origin <= h.load as nat && h.load + HEADER_SIZE <= h.fileEnd <= h.bss <= h.bssEnd
    requires h.bssEnd as nat <= origin + memory.Length
    modifies file, memory
    ensures ok ==> Loaded(memory[..], old(memory[..]), origin, h, file.data)
    ensures old(file.readCount) <= file.readCount
    ensures ok <==> |file.data| + PAD_MAX >= h.fileEnd - h.load &&
                    !Failed(file.grants, old(file.readCount), file.readCount)
    ensures Confined(memory[..], old(memory[..]), h.load - origin, h.bssEnd - origin)
  {
    hide ImageOctet;
    ok := FillImage(file, memory, h.load - origin, h.fileEnd - h.load, header);
    if ok && h.bssEnd - h.bss != 0 { Zero(memory, h.bss - origin, h.bssEnd - h.bss); }
  }

  // Header, payload and padding together are the image.
  lemma ImageIsThere(copied: seq<byte>, padded: seq<byte>, header: seq<byte>, data: seq<byte>, at: nat, size: nat, done: nat)
    requires |padded| == |copied| && HEADER_SIZE <= size && at + size <= |padded| && HEADER_SIZE + done <= size
    requires HEADER_SIZE + done <= |data| && (HEADER_SIZE + done < size ==> HEADER_SIZE + done == |data|)
    requires header == data[..HEADER_SIZE][ID_AT + ID_MAX - 1 := 0]
    requires forall i :: at <= i < at + HEADER_SIZE ==> padded[i] == header[i - at]
    requires forall i :: at + HEADER_SIZE <= i < at + HEADER_SIZE + done ==> padded[i] == data[i - at]
    requires forall i :: at + HEADER_SIZE + done <= i < at + size ==> padded[i] == 0
    ensures forall i :: at <= i < at + size ==> padded[i] == ImageOctet(data, i - at)
  {
  }

  lemma Payload(copied: seq<byte>, filled: seq<byte>, data: seq<byte>, at: nat, size: nat, done: nat)
    requires |filled| == |copied| && HEADER_SIZE <= size && at + size <= |filled| && HEADER_SIZE + done <= size
    requires HEADER_SIZE + done <= |data|
    requires filled[at + HEADER_SIZE..at + HEADER_SIZE + done] == data[HEADER_SIZE..HEADER_SIZE + done]
    ensures forall i :: at + HEADER_SIZE <= i < at + HEADER_SIZE + done ==> filled[i] == data[i - at]
  {
    forall i | at + HEADER_SIZE <= i < at + HEADER_SIZE + done ensures filled[i] == data[i - at] {
      assert filled[at + HEADER_SIZE..at + HEADER_SIZE + done][i - at - HEADER_SIZE] ==
             data[HEADER_SIZE..HEADER_SIZE + done][i - at - HEADER_SIZE];
    }
  }

  // ---------------------------------------------------------------- the loader

  method CheckHeader(h: Header, slot: Slot, compatible: (u32, u32) -> bool, minAbiSize: u32, expected: seq<byte>)
    returns (error: LoadError)
    requires |h.id| == ID_MAX && |h.extensions| == EXTENSIONS_MAX
    ensures error == HeaderVerdict(h, slot, compatible, minAbiSize, expected)
    ensures error == Ready ==> LayoutValid(h) && h.load as nat == slot.base && RangesFit(h, slot)
    ensures error == Ready ==>
              && h.load + HEADER_SIZE <= h.fileEnd <= h.bss <= h.bssEnd <= h.memoryEnd
              && h.memoryEnd as nat <= slot.base + slot.bytes < WORD
  {
    hide LayoutValid, RangesFit, CString;
    var valid := HeaderLayoutValid(h);
    if !valid { return Format; }
    if !compatible(h.requiredAbi, if h.requiredAbiSize != 0 then h.requiredAbiSize else minAbiSize) { return Abi; }
    if expected != [] && CString(h.id[ID_MAX - 1 := 0]) != expected { return Id; }
    if h.load as nat != slot.base || !RangesFit(h, slot) { return Range; }
    AcceptedHeader(h, slot);
    if h.fileEnd - h.load == 0 || h.memoryEnd - h.load < h.fileEnd - h.load || h.fileEnd - h.load < HEADER_SIZE {
      return Range;
    }
    error := Ready;
  }

  method LoadFile(file: ModuleFile, opens: bool, memory: array<byte>, origin: nat, app: ApplicationMemory,
                  compatible: (u32, u32) -> bool, minAbiSize: u32, expected: seq<byte>)
    returns (error: LoadError)
    requires file.Valid() && file.pos == 0 && app.Valid()
    requires origin <= app.base && app.base + app.size <= origin + memory.Length
    modifies file, memory
    // When the entry point is about to be called, memory holds the module and nothing else changed.
    ensures error == Ready ==>
              && |file.data| >= HEADER_SIZE
              && Loaded(memory[..], old(memory[..]), origin, Parse(file.data), file.data)
              && |file.data| + PAD_MAX >= Parse(file.data).fileEnd - Parse(file.data).load
    // Nothing outside the slot is ever written, so a live reservation above it is untouched.
    ensures Confined(memory[..], old(memory[..]), app.base - origin,
                     app.base - origin + app.CurrentSlot().bytes)
    // The answer is the one the file deserves, except that a file that does not open and a read
    // that fails are I/O errors.
    ensures old(file.readCount) <= file.readCount
    ensures error == if SlotOf(app).Some? && (!opens || Failed(file.grants, old(file.readCount), file.readCount)) then Io
                     else Verdict(file.data, SlotOf(app), compatible, minAbiSize, expected)
  {
    hide Verdict, Failed, Loaded;
    var slot := app.MemorySlot();
    NothingWritten(memory[..], app.base - origin, app.base - origin + app.CurrentSlot().bytes);
    EarlyVerdict(file.data, compatible, minAbiSize, expected);
    if slot.None? { return NoAppMemory; }
    if !opens { return Io; }
    error := LoadIntoSlot(file, memory, origin, slot.value, compatible, minAbiSize, expected);
  }

  lemma EarlyVerdict(data: seq<byte>, compatible: (u32, u32) -> bool, minAbiSize: u32, expected: seq<byte>)
    ensures Verdict(data, None, compatible, minAbiSize, expected) == NoAppMemory
  {
  }

  // The loader behind the open call, with the memory slot known.
  method LoadIntoSlot(file: ModuleFile, memory: array<byte>, origin: nat, slot: Slot,
                      compatible: (u32, u32) -> bool, minAbiSize: u32, expected: seq<byte>)
    returns (error: LoadError)
    requires file.Valid() && file.pos == 0
    requires origin <= slot.base && slot.base + slot.bytes <= origin + memory.Length
    modifies file, memory
    ensures error == Ready ==>
              && |file.data| >= HEADER_SIZE
              && Loaded(memory[..], old(memory[..]), origin, Parse(file.data), file.data)
              && |file.data| + PAD_MAX >= Parse(file.data).fileEnd - Parse(file.data).load
    ensures Confined(memory[..], old(memory[..]), slot.base - origin, slot.base - origin + slot.bytes)
    ensures old(file.readCount) <= file.readCount
    ensures error == if Failed(file.grants, old(file.readCount), file.readCount) then Io
                     else Verdict(file.data, Some(slot), compatible, minAbiSize, expected)
  {
    hide HeaderVerdict, Loaded, Confined, Failed;
    NothingWritten(memory[..], slot.base - origin, slot.base - origin + slot.bytes);
    var raw := ReadHeader(file);
    if raw.None? { return Io; }
    var h := Parse(raw.value);
    ParsePrefix(file.data);
    hide Parse;
    error := CheckHeader(h, slot, compatible, minAbiSize, expected);
    if error != Ready { return; }
    ghost var was, middle := memory[..], file.readCount;
    var loaded := LoadImage(file, memory, origin, h, raw.value[ID_AT + ID_MAX - 1 := 0]);
    FailedJoin(file.grants, old(file.readCount), middle, file.readCount);
    ConfinedWider(memory[..], was, h.load - origin, h.bssEnd - origin,
                  slot.base - origin, slot.base - origin + slot.bytes);
    error := if loaded then Ready else Io;
  }

  lemma FailedJoin(grants: nat -> int, a: nat, b: nat, c: nat)
    requires a <= b <= c
    ensures Failed(grants, a, c) <==> Failed(grants, a, b) || Failed(grants, b, c)
  {
  }

  method ReadHeader(file: ModuleFile) returns (raw: Option<seq<byte>>)
    requires file.Valid() && file.pos == 0
    modifies file
    ensures file.Valid() && old(file.readCount) <= file.readCount
    ensures raw.Some? <==> HEADER_SIZE <= |file.data| && !Failed(file.grants, old(file.readCount), file.readCount)
    ensures raw.Some? ==> raw.value == file.data[..HEADER_SIZE] && file.pos == HEADER_SIZE
  {
    hide Failed, Confined;
    var buffer := new byte[HEADER_SIZE](_ => 0);
    var read, done := ReadAvailable(file, buffer, 0, HEADER_SIZE);
    if !read || done != HEADER_SIZE { return None; }
    raw := Some(buffer[..]);
    assert buffer[..] == buffer[0..HEADER_SIZE] && file.data[0..HEADER_SIZE] == file.data[..HEADER_SIZE];
  }

  lemma NothingWritten(s: seq<byte>, lo: int, hi: int)
    ensures Confined(s, s, lo, hi)
  {
  }

  lemma ConfinedWider(now: seq<byte>, was: seq<byte>, lo: int, hi: int, lo': int, hi': int)
    requires Confined(now, was, lo, hi) && lo' <= lo && hi <= hi'
    ensures Confined(now, was, lo', hi')
  {
  }

  ghost function SlotOf(app: ApplicationMemory): Option<Slot>
    requires app.Valid()
    reads app
  {
    if app.readable && app.size >= ARENA_MIN_BYTES then Some(app.CurrentSlot()) else None
  }

  lemma ParsePrefix(s: seq<byte>)
    requires |s| >= HEADER_SIZE
    ensures Parse(s[..HEADER_SIZE]) == Parse(s)
  {
    assert s[..HEADER_SIZE][52..84] == s[52..84] && s[..HEADER_SIZE][84..212] == s[84..212];
  }
}
