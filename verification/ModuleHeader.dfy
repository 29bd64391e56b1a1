// The layout of a core module's header in its file: every field, written at its place, is parsed back.

module ModuleHeader {
  import opened Bytes
  import opened ModuleLoader

  // Words one behind the other.
  function Words(w: seq<u32>): (s: seq<byte>)
    ensures |s| == 4 * |w|
  {
    if w == [] then [] else Put32(w[0]) + Words(w[1..])
  }

  lemma FirstWord(v: u32, tail: seq<byte>)
    ensures Get32(Put32(v) + tail, 0) == v
    ensures (Put32(v) + tail)[4..|Put32(v) + tail|] == tail
  {
    Get32Put32(v);
  }

  lemma {:induction false} WordAt(w: seq<u32>, k: nat, rest: seq<byte>)
    requires k < |w|
    ensures Get32(Words(w) + rest, 4 * k) == w[k]
    decreases |w|
  {
    var s, tail := Words(w) + rest, Words(w[1..]) + rest;
    assert s == Put32(w[0]) + tail;
    hide Words;
    FirstWord(w[0], tail);
    hide Get32, Put32;
    if k > 0 {
      WordAt(w[1..], k - 1, rest);
      FieldOfSlice(s, 4, |s|, 4 * (k - 1));
    }
  }

  // The header's fields one behind the other; the build's own ABI version stands between the
  // extensions and the required ABI size.
  function Fields(h: Header, builtAbi: u32): (s: seq<byte>)
    requires |h.id| == 32 && |h.extensions| == 128
    ensures |s| == 220
  {
    Words([h.magic, h.headerSize, h.formatVersion, h.endianMark, h.requiredAbi, h.flags, h.load, h.fileEnd,
           h.memoryEnd, h.bss, h.bssEnd, h.entry, h.gp]) +
    h.id + h.extensions + Words([builtAbi, h.requiredAbiSize])
  }

  // Every field is read from its own place.
  lemma ParseInvertsFields(h: Header, builtAbi: u32, rest: seq<byte>)
    requires |h.id| == 32 && |h.extensions| == 128 && |rest| >= 24
    ensures Parse(Fields(h, builtAbi) + rest) == h
  {
    hide Words, Get32;
    var s := Fields(h, builtAbi) + rest;
    var w := [h.magic, h.headerSize, h.formatVersion, h.endianMark, h.requiredAbi, h.flags, h.load, h.fileEnd,
              h.memoryEnd, h.bss, h.bssEnd, h.entry, h.gp];
    var last := [builtAbi, h.requiredAbiSize];
    var behind := h.id + h.extensions + Words(last) + rest;
    assert s == Words(w) + behind;
    forall k: nat | k < 13 ensures Get32(s, 4 * k) == w[k] { WordAt(w, k, behind); }
    assert s[52..84] == h.id && s[84..212] == h.extensions;
    assert s[212..|s|] == Words(last) + rest;
    WordAt(last, 1, rest);
    assert Get32(s[212..|s|], 4 * 1) == last[1];
    FieldOfSlice(s, 212, |s|, 4);
    WordsInTurn(s, w);
  }

  lemma WordsInTurn(s: seq<byte>, w: seq<u32>)
    requires |w| == 13 && |s| >= 52 && forall k: nat :: k < 13 ==> Get32(s, 4 * k) == w[k]
    ensures Get32(s, 0) == w[0] && Get32(s, 4) == w[1] && Get32(s, 8) == w[2] && Get32(s, 12) == w[3]
    ensures Get32(s, 16) == w[4] && Get32(s, 20) == w[5] && Get32(s, 24) == w[6] && Get32(s, 28) == w[7]
    ensures Get32(s, 32) == w[8] && Get32(s, 36) == w[9] && Get32(s, 40) == w[10] && Get32(s, 44) == w[11]
    ensures Get32(s, 48) == w[12]
  {
    hide Get32;
    assert Get32(s, 4 * 0) == w[0] && Get32(s, 4 * 1) == w[1] && Get32(s, 4 * 2) == w[2] && Get32(s, 4 * 3) == w[3];
    assert Get32(s, 4 * 4) == w[4] && Get32(s, 4 * 5) == w[5] && Get32(s, 4 * 6) == w[6] && Get32(s, 4 * 7) == w[7];
    assert Get32(s, 4 * 8) == w[8] && Get32(s, 4 * 9) == w[9] && Get32(s, 4 * 10) == w[10];
    assert Get32(s, 4 * 11) == w[11] && Get32(s, 4 * 12) == w[12];
  }
}
