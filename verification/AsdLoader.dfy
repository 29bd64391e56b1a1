/** The boot stage's loading of an ASD image: read into a staging area, then copy into place. */
module AsdLoader {
  import opened AsdImage
  import opened Bytes

  // Offsets into the cached RAM window that begins at 0x80000000.
  const RAM_BYTES := 0x0800_0000
  const ENTRY := 0x1000
  const LOAD := 0x200
  const STAGE := 0x0700_0000
  const CHUNK := 0x07fe_0000
  const CHUNK_SIZE := 64 * 1024
  const SKIP := 0x200

  /** An open file whose first `readable` octets can be read before the card fails. */
  class AsdFile {
    const data: seq<bv8>
    const readable: nat
    var pos: nat

    constructor (data: seq<bv8>, readable: nat)
      ensures this.data == data && this.readable == readable && pos == 0
    {
      this.data, this.readable, pos := data, readable, 0;
    }

    ghost predicate CanRead(count: nat)
      reads this
    {
      pos + count <= |data| && pos + count <= readable
    }

    /** read_exact into RAM. */
    method ReadExact(ram: array<bv8>, dst: nat, count: nat) returns (ok: bool)
      requires dst + count <= ram.Length && pos <= |data|
      modifies this`pos, ram
      ensures pos <= |data|
      ensures ok <==> old(CanRead(count))
      ensures ok ==> pos == old(pos) + count && ram[dst..dst + count] == data[old(pos)..pos]
      ensures ram[..dst] == old(ram[..dst]) && ram[dst + count..] == old(ram[dst + count..])
    {
      if pos + count > |data| || pos + count > readable {
        return false;
      }
      for i := 0 to count
        invariant pos == old(pos)
        invariant ram[dst..dst + i] == data[pos..pos + i]
        invariant ram[..dst] == old(ram[..dst]) && ram[dst + count..] == old(ram[dst + count..])
      {
        ram[dst + i] := data[pos + i];
      }
      pos := pos + count;
      ok := true;
    }
  }

  /** skip_bytes: read and drop, through the chunk buffer. */
  method SkipBytes(file: AsdFile, ram: array<bv8>, count: nat) returns (ok: bool)
    requires ram.Length == RAM_BYTES && file.pos <= |file.data|
    modifies file`pos, ram
    ensures file.pos <= |file.data|
    ensures ok <==> old(file.CanRead(count)) || count == 0
    ensures ok ==> file.pos == old(file.pos) + count
    ensures ram[..CHUNK] == old(ram[..CHUNK])
  {
    var left := count;
    while left != 0
      invariant 0 <= left <= count && file.pos == old(file.pos) + (count - left) <= |file.data|
      invariant left < count ==> file.pos <= file.readable
      invariant ram[..CHUNK] == old(ram[..CHUNK])
    {
      var want := if left > CHUNK_SIZE then CHUNK_SIZE else left;
      var read := file.ReadExact(ram, CHUNK, want);
      if !read {
        return false;
      }
      left := left - want;
    }
    ok := true;
  }

  /** read_stream_exact: chunk by chunk to dst. */
  method ReadStreamExact(file: AsdFile, ram: array<bv8>, dst: nat, size: nat) returns (ok: bool)
    requires dst + size <= ram.Length && file.pos <= |file.data|
    modifies file`pos, ram
    ensures file.pos <= |file.data|
    ensures ok <==> size != 0 && old(file.CanRead(size))
    ensures ok ==> ram[dst..dst + size] == file.data[old(file.pos)..old(file.pos) + size]
    ensures ram[..dst] == old(ram[..dst]) && ram[dst + size..] == old(ram[dst + size..])
  {
    var at, remaining := dst, size;
    ghost var start := file.pos;
    while remaining != 0
      invariant 0 <= remaining <= size && at == dst + (size - remaining)
      invariant file.pos == start + (size - remaining) <= |file.data|
      invariant remaining < size ==> file.pos <= file.readable
      invariant ram[dst..at] == file.data[start..file.pos]
      invariant ram[..dst] == old(ram[..dst]) && ram[dst + size..] == old(ram[dst + size..])
    {
      var want := if remaining > CHUNK_SIZE then CHUNK_SIZE else remaining;
      ghost var before, from := ram[..], file.pos;
      var read := file.ReadExact(ram, at, want);
      KeptOutside(before, ram[..], dst, at, want, dst + size);
      if !read {
        return false;
      }
      assert ram[dst..at + want] == ram[dst..at] + ram[at..at + want];
      SlicesJoin(file.data, start, from, file.pos);
      at, remaining := at + want, remaining - want;
    }
    ok := size != 0;
  }

  /** A write inside lo..hi leaves what lies before it and behind it. */
  lemma KeptOutside(before: seq<bv8>, after: seq<bv8>, lo: nat, at: nat, count: nat, hi: nat)
    requires lo <= at && at + count <= hi <= |before| == |after|
    requires after[..at] == before[..at] && after[at + count..] == before[at + count..]
    ensures after[..lo] == before[..lo] && after[lo..at] == before[lo..at] && after[hi..] == before[hi..]
  {
    assert after[..at][..lo] == before[..at][..lo];
    assert after[..at][lo..] == before[..at][lo..];
    assert after[at + count..][hi - at - count..] == before[at + count..][hi - at - count..];
  }

  /** copy_bytes between areas that do not overlap. */
  method CopyBytes(ram: array<bv8>, dst: nat, src: nat, len: nat)
    requires dst + len <= src && src + len <= ram.Length
    modifies ram
    ensures ram[dst..dst + len] == old(ram[src..src + len])
    ensures ram[..dst] == old(ram[..dst]) && ram[dst + len..] == old(ram[dst + len..])
  {
    for i := 0 to len
      invariant ram[dst..dst + i] == old(ram[src..src + i])
      invariant ram[..dst] == old(ram[..dst]) && ram[dst + len..] == old(ram[dst + len..])
    {
      assert ram[src + i] == ram[dst + len..][src + i - dst - len];
      ram[dst + i] := ram[src + i];
    }
  }

  /** The sizes load_asd_staged accepts. */
  predicate SizeFits(size: nat)
  {
    SKIP < size && size - SKIP <= CHUNK - STAGE
  }

  /** load_asd_staged. */
  method LoadAsdStaged(file: AsdFile, ram: array<bv8>) returns (ok: bool)
    requires ram.Length == RAM_BYTES && file.pos == 0
    modifies file`pos, ram
    ensures ok <==> SizeFits(|file.data|) && |file.data| <= file.readable
    ensures ok ==> ram[LOAD..LOAD + |file.data| - SKIP] == file.data[SKIP..]
    ensures ram[..LOAD] == old(ram[..LOAD])
    ensures !ok ==> ram[..STAGE] == old(ram[..STAGE])
    ensures ok ==> ram[LOAD + |file.data| - SKIP..STAGE] == old(ram[LOAD + |file.data| - SKIP..STAGE])
  {
    if |file.data| <= SKIP || |file.data| - SKIP > CHUNK - STAGE {
      return false;
    }
    var payloadSize := |file.data| - SKIP;
    ghost var ram0 := ram[..];
    var skipped := SkipBytes(file, ram, SKIP);
    assert ram[..STAGE] == ram[..CHUNK][..STAGE] == ram0[..STAGE];
    if !skipped {
      return false;
    }
    ghost var below := ram[..STAGE];
    var read := ReadStreamExact(file, ram, STAGE, payloadSize);
    if !read {
      return false;
    }
    ghost var staged := ram[..];
    CopyBytes(ram, LOAD, STAGE, payloadSize);
    assert staged[..STAGE] == ram0[..STAGE];
    assert ram[LOAD + payloadSize..][..STAGE - LOAD - payloadSize] ==
           staged[LOAD + payloadSize..][..STAGE - LOAD - payloadSize];
    assert ram[..LOAD] == staged[..STAGE][..LOAD];
    ok := true;
  }

  /** A packed image that fits the staging area puts octet i of its input at the entry address plus i. */
  lemma PackedLandsAtEntry(input: seq<bv8>, ram: seq<bv8>)
    requires |ram| == RAM_BYTES
    ensures SizeFits(|Packed(input)|) <==> |input| + IMAGE_START - HEADER_SIZE <= CHUNK - STAGE
    ensures SizeFits(|Packed(input)|) && ram[LOAD..LOAD + |Packed(input)| - SKIP] == Packed(input)[SKIP..] ==>
              ram[ENTRY..ENTRY + |input|] == input
  {
    hide Packed;
    PackedFields(input);
    if SizeFits(|Packed(input)|) && ram[LOAD..LOAD + |Packed(input)| - SKIP] == Packed(input)[SKIP..] {
      var n := |Packed(input)| - SKIP;
      assert ram[ENTRY..ENTRY + |input|] == ram[LOAD..LOAD + n][ENTRY - LOAD..];
      assert Packed(input)[SKIP..][ENTRY - LOAD..] == Packed(input)[IMAGE_START..];
    }
  }
}
