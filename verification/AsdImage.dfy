/** The ASD packer and its checker: a header with size and CRC in front of the firmware. */
module AsdImage {
  import opened AsdBurst
  import opened AsdCrc
  import opened Bytes

  const IMAGE_START := 0x1000
  const HEADER_SIZE := 0x200
  const SIZE_OFF := 0x184
  const CRC_OFF := 0x18c
  const MAGIC: seq<bv8> := [0x4c, 0x43, 0x46, 0x47]

  // ------------------------------------------------- little-endian words

  function Gather(b0: bool, b1: bool, b2: bool, b3: bool, b4: bool, b5: bool, b6: bool, b7: bool): bv8
  {
    (if b0 then 1 else 0) | (if b1 then 2 else 0) | (if b2 then 4 else 0) | (if b3 then 8 else 0) |
    (if b4 then 16 else 0) | (if b5 then 32 else 0) | (if b6 then 64 else 0) | (if b7 then 128 else 0)
  }

  function Bit(b: bool): nat { if b then 1 else 0 }

  function Weigh(b0: bool, b1: bool, b2: bool, b3: bool, b4: bool, b5: bool, b6: bool, b7: bool): nat
  {
    Bit(b0) + 2 * (Bit(b1) + 2 * (Bit(b2) + 2 * (Bit(b3) + 2 * (Bit(b4) + 2 * (Bit(b5) + 2 * (Bit(b6) + 2 * Bit(b7)))))))
  }

  function Odd(v: nat): bool { v % 2 == 1 }

  function Half(v: nat): nat { v / 2 }

  function Shifted(v: nat, n: nat): nat { if n == 0 then v else Half(Shifted(v, n - 1)) }

  /** A number's low octet, and an octet's number, bit by bit. */
  function OctetOf(v: nat): bv8
  {
    Gather(Odd(v), Odd(Shifted(v, 1)), Odd(Shifted(v, 2)), Odd(Shifted(v, 3)),
           Odd(Shifted(v, 4)), Odd(Shifted(v, 5)), Odd(Shifted(v, 6)), Odd(Shifted(v, 7)))
  }

  function ValueOf(b: bv8): nat
  {
    Weigh(b & 1 != 0, b & 2 != 0, b & 4 != 0, b & 8 != 0, b & 16 != 0, b & 32 != 0, b & 64 != 0, b & 128 != 0)
  }

  lemma GatherHasBits(b0: bool, b1: bool, b2: bool, b3: bool, b4: bool, b5: bool, b6: bool, b7: bool)
    ensures var b := Gather(b0, b1, b2, b3, b4, b5, b6, b7);
            && (b & 1 != 0 <==> b0) && (b & 2 != 0 <==> b1) && (b & 4 != 0 <==> b2) && (b & 8 != 0 <==> b3)
            && (b & 16 != 0 <==> b4) && (b & 32 != 0 <==> b5) && (b & 64 != 0 <==> b6) && (b & 128 != 0 <==> b7)
  {}

  lemma BitsGather(b: bv8)
    ensures Gather(b & 1 != 0, b & 2 != 0, b & 4 != 0, b & 8 != 0,
                   b & 16 != 0, b & 32 != 0, b & 64 != 0, b & 128 != 0) == b
  {}

  lemma Halve(b: bool, rest: nat)
    ensures Half(Bit(b) + 2 * rest) == rest && Odd(Bit(b) + 2 * rest) == b
  {}

  lemma Unhalve(v: nat)
    ensures v == Bit(Odd(v)) + 2 * Half(v)
  {}

  lemma ShiftedStep(v: nat, n: nat)
    ensures Shifted(v, 0) == v && Shifted(v, n + 1) == Half(Shifted(v, n))
  {}

  lemma ValueOfGather(b0: bool, b1: bool, b2: bool, b3: bool, b4: bool, b5: bool, b6: bool, b7: bool)
    ensures ValueOf(Gather(b0, b1, b2, b3, b4, b5, b6, b7)) == Weigh(b0, b1, b2, b3, b4, b5, b6, b7)
  {
    hide Gather, Weigh;
    GatherHasBits(b0, b1, b2, b3, b4, b5, b6, b7);
  }

  lemma LowBits(v: nat)
    ensures v == Weigh(Odd(v), Odd(Shifted(v, 1)), Odd(Shifted(v, 2)), Odd(Shifted(v, 3)),
                       Odd(Shifted(v, 4)), Odd(Shifted(v, 5)), Odd(Shifted(v, 6)), Odd(Shifted(v, 7)))
                 + 0x100 * Shifted(v, 8)
  {
    hide Odd, Half, Bit, Shifted;
    ShiftedStep(v, 0); ShiftedStep(v, 1); ShiftedStep(v, 2); ShiftedStep(v, 3);
    ShiftedStep(v, 4); ShiftedStep(v, 5); ShiftedStep(v, 6); ShiftedStep(v, 7);
    Unhalve(v); Unhalve(Shifted(v, 1)); Unhalve(Shifted(v, 2)); Unhalve(Shifted(v, 3));
    Unhalve(Shifted(v, 4)); Unhalve(Shifted(v, 5)); Unhalve(Shifted(v, 6)); Unhalve(Shifted(v, 7));
  }

  lemma OctetHasValue(v: nat)
    ensures ValueOf(OctetOf(v)) == v % 0x100
  {
    hide Gather, Weigh, Odd, Shifted, ValueOf;
    ValueOfGather(Odd(v), Odd(Shifted(v, 1)), Odd(Shifted(v, 2)), Odd(Shifted(v, 3)),
                  Odd(Shifted(v, 4)), Odd(Shifted(v, 5)), Odd(Shifted(v, 6)), Odd(Shifted(v, 7)));
    LowBits(v);
    BitSmall(Odd(v), Odd(Shifted(v, 1)), Odd(Shifted(v, 2)), Odd(Shifted(v, 3)),
             Odd(Shifted(v, 4)), Odd(Shifted(v, 5)), Odd(Shifted(v, 6)), Odd(Shifted(v, 7)));
  }

  lemma BitSmall(b0: bool, b1: bool, b2: bool, b3: bool, b4: bool, b5: bool, b6: bool, b7: bool)
    ensures Weigh(b0, b1, b2, b3, b4, b5, b6, b7) < 0x100
  {}

  lemma WeighHasBits(b0: bool, b1: bool, b2: bool, b3: bool, b4: bool, b5: bool, b6: bool, b7: bool)
    ensures OctetOf(Weigh(b0, b1, b2, b3, b4, b5, b6, b7)) == Gather(b0, b1, b2, b3, b4, b5, b6, b7)
  {
    hide Gather, Odd, Half, Bit, Shifted;
    var v := Weigh(b0, b1, b2, b3, b4, b5, b6, b7);
    ShiftedStep(v, 0); ShiftedStep(v, 1); ShiftedStep(v, 2); ShiftedStep(v, 3);
    ShiftedStep(v, 4); ShiftedStep(v, 5); ShiftedStep(v, 6);
    var n7 := Bit(b7);
    var n6 := Bit(b6) + 2 * n7;
    var n5 := Bit(b5) + 2 * n6;
    var n4 := Bit(b4) + 2 * n5;
    var n3 := Bit(b3) + 2 * n4;
    var n2 := Bit(b2) + 2 * n3;
    var n1 := Bit(b1) + 2 * n2;
    Halve(b0, n1); Halve(b1, n2); Halve(b2, n3); Halve(b3, n4);
    Halve(b4, n5); Halve(b5, n6); Halve(b6, n7); Halve(b7, 0);
  }

  lemma ValueHasOctet(b: bv8)
    ensures ValueOf(b) < 0x100 && OctetOf(ValueOf(b)) == b
  {
    hide Gather, Weigh, OctetOf;
    WeighHasBits(b & 1 != 0, b & 2 != 0, b & 4 != 0, b & 8 != 0, b & 16 != 0, b & 32 != 0, b & 64 != 0, b & 128 != 0);
    BitSmall(b & 1 != 0, b & 2 != 0, b & 4 != 0, b & 8 != 0, b & 16 != 0, b & 32 != 0, b & 64 != 0, b & 128 != 0);
    BitsGather(b);
  }

  /** write_le32 of a size_t cast to uint32_t. */
  function SizeWord(v: nat): (w: seq<bv8>)
    ensures |w| == 4
  {
    [OctetOf(v), OctetOf(v / 0x100), OctetOf(v / 0x1_0000), OctetOf(v / 0x100_0000)]
  }

  /** read_le32 as a number. */
  function ReadSize(buf: seq<bv8>, at: nat): nat
    requires at + 4 <= |buf|
  {
    ValueOf(buf[at]) + 0x100 * ValueOf(buf[at + 1]) + 0x1_0000 * ValueOf(buf[at + 2]) +
    0x100_0000 * ValueOf(buf[at + 3])
  }

  /** write_le32 of a register. */
  function CrcWord(c: bv32): (w: seq<bv8>)
    ensures |w| == 4
  {
    [(c & 0xff) as bv8, ((c >> 8) & 0xff) as bv8, ((c >> 16) & 0xff) as bv8, ((c >> 24) & 0xff) as bv8]
  }

  /** read_le32 as a register. */
  function CrcOfWord(a: bv8, b: bv8, c: bv8, d: bv8): bv32
  {
    (a as bv32) | ((b as bv32) << 8) | ((c as bv32) << 16) | ((d as bv32) << 24)
  }

  function ReadCrc(buf: seq<bv8>, at: nat): bv32
    requires at + 4 <= |buf|
  {
    CrcOfWord(buf[at], buf[at + 1], buf[at + 2], buf[at + 3])
  }

  lemma CrcWordReads(c: bv32)
    ensures var w := CrcWord(c); CrcOfWord(w[0], w[1], w[2], w[3]) == c
  {}

  lemma FourOctets(v: nat)
    ensures v % 0x100 + 0x100 * (v / 0x100 % 0x100) + 0x1_0000 * (v / 0x1_0000 % 0x100) +
            0x100_0000 * (v / 0x100_0000 % 0x100) == v % 0x1_0000_0000
  {
    assert v / 0x1_0000 == v / 0x100 / 0x100;
    assert v / 0x100_0000 == v / 0x100 / 0x100 / 0x100;
  }

  /** A size survives its header field exactly when it fits 32 bits. */
  lemma SizeWordReads(v: nat)
    ensures ReadSize(SizeWord(v), 0) == v % 0x1_0000_0000
  {
    hide OctetOf, ValueOf;
    OctetHasValue(v);
    OctetHasValue(v / 0x100);
    OctetHasValue(v / 0x1_0000);
    OctetHasValue(v / 0x100_0000);
    FourOctets(v);
  }

  // --------------------------------------------------------------- images

  function ZeroOctets(n: nat): (z: seq<bv8>)
    ensures |z| == n && forall k :: 0 <= k < n ==> z[k] == 0
  {
    seq(n, _ => 0)
  }

  /** The part of an image that its CRC covers. */
  function Payload(image: seq<bv8>): seq<bv8>
    requires |image| >= HEADER_SIZE
  {
    image[HEADER_SIZE..]
  }

  function PackedPayload(input: seq<bv8>): (p: seq<bv8>)
    ensures |p| == IMAGE_START - HEADER_SIZE + |input|
  {
    ZeroOctets(IMAGE_START - HEADER_SIZE) + input
  }

  /** What pack_file writes. */
  function Packed(input: seq<bv8>): (image: seq<bv8>)
    ensures |image| == IMAGE_START + |input|
  {
    var payload := PackedPayload(input);
    MAGIC + ZeroOctets(SIZE_OFF - 4) + SizeWord(|payload|) + ZeroOctets(CRC_OFF - SIZE_OFF - 4) +
    CrcWord(Mpeg2(payload)) + ZeroOctets(HEADER_SIZE - CRC_OFF - 4) + payload
  }

  /** What check_file accepts. */
  predicate Accepted(image: seq<bv8>)
  {
    && |image| >= IMAGE_START
    && image[..4] == MAGIC
    && ReadSize(image, SIZE_OFF) == |image| - HEADER_SIZE
    && ReadCrc(image, CRC_OFF) == Mpeg2(Payload(image))
  }

  lemma PackedFields(input: seq<bv8>)
    ensures var image := Packed(input);
            && |image| == 0x1000 + |input|
            && image[..4] == MAGIC
            && image[SIZE_OFF..SIZE_OFF + 4] == SizeWord(|input| + IMAGE_START - HEADER_SIZE)
            && image[CRC_OFF..CRC_OFF + 4] == CrcWord(Mpeg2(PackedPayload(input)))
            && Payload(image) == PackedPayload(input)
            && image[IMAGE_START..] == input
  {
    hide SizeWord, CrcWord, Mpeg2;
  }

  /** The header's words at their published places: what the writer puts there, the checker takes from there. */
  lemma PublishedPlaces(input: seq<bv8>, buf: seq<bv8>)
    ensures Packed(input)[0x184..0x188] == SizeWord(|input| + 0xe00)
    ensures Packed(input)[0x18c..0x190] == CrcWord(Mpeg2(Packed(input)[0x200..]))
    ensures Packed(input)[..4] == [0x4c, 0x43, 0x46, 0x47] && Packed(input)[0x1000..] == input
    ensures Accepted(buf) <==>
              && |buf| >= 0x1000 && buf[..4] == [0x4c, 0x43, 0x46, 0x47]
              && buf[0x18c..0x190] == CrcWord(Mpeg2(buf[0x200..]))
              && |buf| - 0x200 < 0x1_0000_0000 && buf[0x184..0x188] == SizeWord(|buf| - 0x200)
  {
    PackedFields(input);
    hide SizeWord, CrcWord, Mpeg2;
    if |buf| >= 0x1000 {
      WordsAgree(buf, |buf| - 0x200, Mpeg2(buf[0x200..]));
    }
  }

  lemma CrcWordIs(c: bv32, a: bv8, b: bv8, d: bv8, e: bv8)
    ensures CrcOfWord(a, b, d, e) == c <==> CrcWord(c) == [a, b, d, e]
  {
    CrcWordReads(c);
  }

  lemma OctetIs(v: nat, b: bv8)
    requires v % 0x100 == ValueOf(b)
    ensures OctetOf(v) == b
  {
    hide OctetOf, ValueOf;
    OctetHasValue(v);
    ValueHasOctet(b);
    ValueHasOctet(OctetOf(v));
  }

  lemma Digits(a: nat, b: nat, c: nat, d: nat)
    requires a < 0x100 && b < 0x100 && c < 0x100 && d < 0x100
    ensures var v := a + 0x100 * b + 0x1_0000 * c + 0x100_0000 * d;
            && v % 0x100 == a && v / 0x100 % 0x100 == b && v / 0x1_0000 % 0x100 == c
            && v / 0x100_0000 % 0x100 == d && v < 0x1_0000_0000
  {
    var v := a + 0x100 * b + 0x1_0000 * c + 0x100_0000 * d;
    assert v / 0x100 == b + 0x100 * c + 0x1_0000 * d;
    assert v / 0x1_0000 == c + 0x100 * d;
    assert v / 0x100_0000 == d;
  }

  lemma SizeWordIs(v: nat, w: seq<bv8>)
    requires |w| == 4
    ensures ReadSize(w, 0) == v <==> v < 0x1_0000_0000 && SizeWord(v) == w
  {
    hide OctetOf, ValueOf;
    SizeWordReads(v);
    if ReadSize(w, 0) == v {
      ValueHasOctet(w[0]);
      ValueHasOctet(w[1]);
      ValueHasOctet(w[2]);
      ValueHasOctet(w[3]);
      Digits(ValueOf(w[0]), ValueOf(w[1]), ValueOf(w[2]), ValueOf(w[3]));
      OctetIs(v, w[0]);
      OctetIs(v / 0x100, w[1]);
      OctetIs(v / 0x1_0000, w[2]);
      OctetIs(v / 0x100_0000, w[3]);
    }
  }

  lemma WordsAgree(buf: seq<bv8>, size: nat, crc: bv32)
    requires |buf| >= 0x200
    ensures ReadSize(buf, 0x184) == size <==> size < 0x1_0000_0000 && buf[0x184..0x188] == SizeWord(size)
    ensures ReadCrc(buf, 0x18c) == crc <==> buf[0x18c..0x190] == CrcWord(crc)
  {
    hide SizeWord, CrcWord, ReadSize, CrcOfWord;
    WordOfSlice(buf, 0x184);
    SizeWordIs(size, buf[0x184..0x188]);
    CrcWordIs(crc, buf[0x18c], buf[0x18d], buf[0x18e], buf[0x18f]);
    assert buf[0x18c..0x190] == [buf[0x18c], buf[0x18d], buf[0x18e], buf[0x18f]];
  }

  lemma WordOfSlice(s: seq<bv8>, at: nat)
    requires at + 4 <= |s|
    ensures ReadSize(s, at) == ReadSize(s[at..at + 4], 0)
    ensures ReadCrc(s, at) == ReadCrc(s[at..at + 4], 0)
  {
    hide ValueOf, CrcOfWord;
  }

  /** The checker accepts a packed image exactly when its payload size fits 32 bits. */
  lemma CheckAcceptsPacked(input: seq<bv8>)
    ensures Accepted(Packed(input)) <==> |input| + IMAGE_START - HEADER_SIZE < 0x1_0000_0000
  {
    hide SizeWord, CrcWord, Mpeg2, Packed, CrcOfWord, ReadSize, PackedPayload;
    var image := Packed(input);
    PackedFields(input);
    WordOfSlice(image, SIZE_OFF);
    WordOfSlice(image, CRC_OFF);
    SizeWordReads(|input| + IMAGE_START - HEADER_SIZE);
    CrcWordReads(Mpeg2(PackedPayload(input)));
  }

  /**
   * No accepted image stays accepted when its payload is changed inside a window of up to four
   * octets: `s` stands at `at` in the image, `t` replaces it.
   */
  lemma CheckRejectsBurst(image: seq<bv8>, at: nat, t: seq<bv8>)
    requires Accepted(image)
    requires HEADER_SIZE <= at && at + |t| <= |image| && |t| <= 4
    requires image[at..at + |t|] != t
    ensures !Accepted(image[..at] + t + image[at + |t|..])
  {
    hide Mpeg2, ReadSize, CrcOfWord;
    var s := image[at..at + |t|];
    var changed := image[..at] + t + image[at + |t|..];
    var pre, post := image[HEADER_SIZE..at], image[at + |t|..];
    assert Payload(image) == pre + s + post;
    assert Payload(changed) == pre + t + post;
    assert ReadCrc(changed, CRC_OFF) == ReadCrc(image, CRC_OFF);
    BurstIsDetected(pre, s, t, post);
  }

  /**
   * Nor does one stay accepted when bits of its payload change within 32 consecutive ones, wherever
   * they begin.
   */
  lemma CheckRejectsEveryBurst(image: seq<bv8>, changed: seq<bv8>, at: nat)
    requires Accepted(image) && changed != image
    requires |changed| == |image| && changed[..HEADER_SIZE] == image[..HEADER_SIZE]
    requires Burst(Payload(image), Payload(changed), at)
    ensures !Accepted(changed)
  {
    hide Mpeg2, Burst, ReadCrc, ReadSize;
    assert image == image[..HEADER_SIZE] + Payload(image) && changed == changed[..HEADER_SIZE] + Payload(changed);
    SameHeaderSameCrc(image, changed);
    EveryBurstIsDetected(Payload(image), Payload(changed), at);
  }

  lemma SameHeaderSameCrc(image: seq<bv8>, changed: seq<bv8>)
    requires |changed| == |image| >= HEADER_SIZE && changed[..HEADER_SIZE] == image[..HEADER_SIZE]
    ensures ReadCrc(changed, CRC_OFF) == ReadCrc(image, CRC_OFF)
  {
    hide ReadCrc, ReadSize;
    SliceOfSlice(changed, 0, HEADER_SIZE, CRC_OFF, CRC_OFF + 4);
    SliceOfSlice(image, 0, HEADER_SIZE, CRC_OFF, CRC_OFF + 4);
    assert changed[..HEADER_SIZE] == changed[0..HEADER_SIZE] && image[..HEADER_SIZE] == image[0..HEADER_SIZE];
    WordOfSlice(changed, CRC_OFF);
    WordOfSlice(image, CRC_OFF);
  }

  // ---------------------------------------------------------------- tools

  /** The table loop of crc32_mpeg2. */
  method BuildTable() returns (tab: array<bv32>)
    ensures fresh(tab) && tab.Length == 0x100
    ensures forall i :: 0 <= i < 0x100 ==> tab[i] == TableEntry(OctetOf(i))
  {
    hide Step, OctetOf, OnTop;
    tab := new bv32[256](_ => 0);
    for i := 0 to 256
      invariant forall k: int :: 0 <= k < i ==> tab[k] == TableEntry(OctetOf(k))
    {
      var c := OnTop(OctetOf(i));
      for j := 0 to 8
        invariant Steps(c, 8 - j) == TableEntry(OctetOf(i))
      {
        c := Step(c);
      }
      tab[i] := c;
    }
  }

  /** crc32_mpeg2. */
  method Crc32Mpeg2(buf: seq<bv8>) returns (c: bv32)
    ensures c == Mpeg2(buf)
  {
    hide TableEntry, ShiftOctet, Xor, Shl8, TopOctet, OctetOf, ValueOf;
    var tab := BuildTable();
    c := 0xffff_ffff;
    assert Mpeg2(buf[..0]) == c;
    hide Mpeg2;
    for i := 0 to |buf|
      invariant c == Mpeg2(buf[..i])
      invariant forall k :: 0 <= k < 0x100 ==> tab[k] == TableEntry(OctetOf(k))
    {
      var x := TopOctet(c) ^ buf[i];
      ValueHasOctet(x);
      TableStepIsShiftOctet(c, buf[i]);
      OneOctetMore(buf, i);
      c := Xor(Shl8(c), tab[ValueOf(x)]);
    }
    assert buf[..|buf|] == buf;
  }

  lemma OneOctetMore(buf: seq<bv8>, i: nat)
    requires i < |buf|
    ensures Mpeg2(buf[..i + 1]) == ShiftOctet(Mpeg2(buf[..i]), buf[i])
  {
    hide ShiftOctet;
    assert buf[..i + 1] == buf[..i] + [buf[i]];
    FoldAppend(ShiftOctet, 0xffff_ffff, buf[..i], [buf[i]]);
    assert Fold(ShiftOctet, Mpeg2(buf[..i]), [buf[i]]) == ShiftOctet(Mpeg2(buf[..i]), buf[i]);
  }

  function WithWord(buf: seq<bv8>, at: nat, word: seq<bv8>): seq<bv8>
    requires at + 4 <= |buf|
  {
    buf[..at] + word + buf[at + 4..]
  }

  /** write_le32 into a buffer. */
  method WriteWord(buf: array<bv8>, at: nat, word: seq<bv8>)
    requires |word| == 4 && at + 4 <= buf.Length
    modifies buf
    ensures buf[..] == WithWord(old(buf[..]), at, word)
  {
    buf[at] := word[0];
    buf[at + 1] := word[1];
    buf[at + 2] := word[2];
    buf[at + 3] := word[3];
  }

  /** The buffer of pack_file before its two header words are written. */
  function Unsigned(input: seq<bv8>): seq<bv8>
  {
    MAGIC + ZeroOctets(IMAGE_START - 4) + input
  }

  lemma SizeWritten(input: seq<bv8>, word: seq<bv8>)
    requires |word| == 4
    ensures WithWord(Unsigned(input), SIZE_OFF, word) ==
            MAGIC + ZeroOctets(SIZE_OFF - 4) + word + ZeroOctets(HEADER_SIZE - SIZE_OFF - 4) + PackedPayload(input)
  {}

  lemma CrcWritten(payload: seq<bv8>, size: seq<bv8>, crc: seq<bv8>)
    requires |size| == |crc| == 4
    ensures WithWord(MAGIC + ZeroOctets(SIZE_OFF - 4) + size + ZeroOctets(HEADER_SIZE - SIZE_OFF - 4) + payload,
                     CRC_OFF, crc) ==
            MAGIC + ZeroOctets(SIZE_OFF - 4) + size + ZeroOctets(CRC_OFF - SIZE_OFF - 4) +
            crc + ZeroOctets(HEADER_SIZE - CRC_OFF - 4) + payload
  {}

  /** calloc, memcpy of the input and the magic. */
  method BuildUnsigned(input: seq<bv8>) returns (out: array<bv8>)
    ensures fresh(out) && out.Length == IMAGE_START + |input| && out[..] == Unsigned(input)
  {
    out := new bv8[IMAGE_START + |input|](_ => 0);
    for i := 0 to |input|
      invariant out[..] == ZeroOctets(IMAGE_START) + input[..i] + ZeroOctets(|input| - i)
    {
      out[IMAGE_START + i] := input[i];
    }
    out[0], out[1], out[2], out[3] := 0x4c, 0x43, 0x46, 0x47;
  }

  /** pack_file: the image for an input file. */
  method PackFile(input: seq<bv8>) returns (out: array<bv8>)
    ensures fresh(out) && out[..] == Packed(input)
  {
    hide SizeWord, CrcWord, Mpeg2, Unsigned, PackedPayload, ZeroOctets;
    out := BuildUnsigned(input);
    var payloadSize := IMAGE_START + |input| - HEADER_SIZE;
    WriteWord(out, SIZE_OFF, SizeWord(payloadSize));
    SizeWritten(input, SizeWord(payloadSize));
    assert out[HEADER_SIZE..] == PackedPayload(input);
    var crc := Crc32Mpeg2(out[HEADER_SIZE..]);
    WriteWord(out, CRC_OFF, CrcWord(crc));
    CrcWritten(PackedPayload(input), SizeWord(payloadSize), CrcWord(crc));
  }

  /** check_file. */
  method CheckFile(buf: seq<bv8>) returns (ok: bool)
    ensures ok == Accepted(buf)
  {
    hide Mpeg2, ReadSize, ReadCrc;
    if |buf| < IMAGE_START {
      return false;
    }
    if buf[..4] != MAGIC {
      return false;
    }
    var payloadSize := |buf| - HEADER_SIZE;
    if ReadSize(buf, SIZE_OFF) != payloadSize {
      return false;
    }
    var storedCrc := ReadCrc(buf, CRC_OFF);
    var crc := Crc32Mpeg2(buf[HEADER_SIZE..]);
    ok := storedCrc == crc;
  }
}
