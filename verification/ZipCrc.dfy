/** A value of zlib's CRC-32 that anyone can look up: its polynomial and its inversions are the published ones. */
module ZipCrc {
  import opened Bytes
  import opened ZipFormat

  // ------------------------------------------------- exclusive or by digits

  /** A hexadecimal digit as its bits, lowest first. */
  datatype Digit = Digit(b0: bool, b1: bool, b2: bool, b3: bool)

  function Bit(b: bool): nat { if b then 1 else 0 }

  function Value(d: Digit): nat { Bit(d.b0) + 2 * (Bit(d.b1) + 2 * (Bit(d.b2) + 2 * Bit(d.b3))) }

  function Differ(d: Digit, e: Digit): Digit
  {
    Digit(d.b0 != e.b0, d.b1 != e.b1, d.b2 != e.b2, d.b3 != e.b3)
  }

  /** The number with these digits, lowest first. */
  function Join(digits: seq<Digit>): nat
  {
    if digits == [] then 0 else Value(digits[0]) + 16 * Join(digits[1..])
  }

  function Differs(a: seq<Digit>, b: seq<Digit>): (r: seq<Digit>)
    requires |a| == |b|
    ensures |r| == |a| && forall k :: 0 <= k < |a| ==> r[k] == Differ(a[k], b[k])
  {
    seq(|a|, k requires 0 <= k < |a| => Differ(a[k], b[k]))
  }

  /** The number with this bit behind those of x. */
  function Behind(b: bool, x: nat): nat { Bit(b) + 2 * x }

  lemma BitBehind(c: bool, d: bool, x: nat, y: nat)
    ensures Behind(c, x) / 2 == x
    ensures (Behind(c, x) + Behind(d, y)) % 2 == Bit(c != d)
  {
    assert Behind(c, x) + Behind(d, y) == Bit(c) + Bit(d) + 2 * (x + y);
  }

  lemma OneBit(n: nat, c: bool, d: bool, x: nat, y: nat)
    requires x < Pow2(n) && y < Pow2(n)
    ensures Behind(c, x) < Pow2(n + 1) && Behind(d, y) < Pow2(n + 1)
    ensures Xor(n + 1, Behind(c, x), Behind(d, y)) == Behind(c != d, Xor(n, x, y))
  {
    BitBehind(c, d, x, y);
    BitBehind(d, c, y, x);
  }

  lemma ValueIs(d: Digit, x: nat)
    ensures Value(d) + 16 * x == Behind(d.b0, Behind(d.b1, Behind(d.b2, Behind(d.b3, x))))
  {
    hide Bit;
  }

  lemma OneDigit(n: nat, d: Digit, e: Digit, x: nat, y: nat)
    requires x < Pow2(n) && y < Pow2(n)
    ensures Value(d) + 16 * x < Pow2(n + 4) && Value(e) + 16 * y < Pow2(n + 4)
    ensures Xor(n + 4, Value(d) + 16 * x, Value(e) + 16 * y) == Value(Differ(d, e)) + 16 * Xor(n, x, y)
  {
    hide Xor, Pow2, Behind, Value;
    ValueIs(d, x);
    ValueIs(e, y);
    ValueIs(Differ(d, e), Xor(n, x, y));
    var x3, y3 := Behind(d.b3, x), Behind(e.b3, y);
    var x2, y2 := Behind(d.b2, x3), Behind(e.b2, y3);
    var x1, y1 := Behind(d.b1, x2), Behind(e.b1, y2);
    OneBit(n, d.b3, e.b3, x, y);
    OneBit(n + 1, d.b2, e.b2, x3, y3);
    OneBit(n + 2, d.b1, e.b1, x2, y2);
    OneBit(n + 3, d.b0, e.b0, x1, y1);
  }

  lemma NoDigits(a: seq<Digit>, b: seq<Digit>)
    requires a == b == []
    ensures Join(a) == Join(b) == 0 < Pow2(0) && Join(Differs(a, b)) == 0 == Xor(0, 0, 0)
  {}

  lemma JoinCons(a: seq<Digit>, b: seq<Digit>)
    requires |a| == |b| && a != []
    ensures Join(Differs(a, b)) == Value(Differ(a[0], b[0])) + 16 * Join(Differs(a[1..], b[1..]))
    ensures Join(a) == Value(a[0]) + 16 * Join(a[1..]) && Join(b) == Value(b[0]) + 16 * Join(b[1..])
  {
    hide Value, Differ;
    assert Differs(a, b)[1..] == Differs(a[1..], b[1..]);
  }

  lemma {:induction false} XorOfDigits(a: seq<Digit>, b: seq<Digit>)
    requires |a| == |b|
    ensures Join(a) < Pow2(4 * |a|) && Join(b) < Pow2(4 * |a|)
    ensures Xor(4 * |a|, Join(a), Join(b)) == Join(Differs(a, b))
    decreases |a|
  {
    hide Xor, Differ, Differs, Value, Pow2, Join;
    if a == [] {
      NoDigits(a, b);
    } else {
      JoinCons(a, b);
      XorOfDigits(a[1..], b[1..]);
      var n := 4 * (|a| - 1);
      OneDigit(n, a[0], b[0], Join(a[1..]), Join(b[1..]));
      assert 4 * |a| == n + 4;
    }
  }

  // ----------------------------------------------------------- eight digits

  const D0 := Digit(false, false, false, false)
  const D1 := Digit(true, false, false, false)
  const D2 := Digit(false, true, false, false)
  const D3 := Digit(true, true, false, false)
  const D4 := Digit(false, false, true, false)
  const D5 := Digit(true, false, true, false)
  const D6 := Digit(false, true, true, false)
  const D7 := Digit(true, true, true, false)
  const D8 := Digit(false, false, false, true)
  const D9 := Digit(true, false, false, true)
  const DA := Digit(false, true, false, true)
  const DB := Digit(true, true, false, true)
  const DC := Digit(false, false, true, true)
  const DD := Digit(true, false, true, true)
  const DE := Digit(false, true, true, true)
  const DF := Digit(true, true, true, true)

  /** 0xedb88320. */
  const Polynomial := [D0, D2, D3, D8, D8, DB, DD, DE]

  /** The number with these eight digits. */
  function Sum(a: seq<Digit>): nat
    requires |a| == 8
  {
    Value(a[0]) + 0x10 * Value(a[1]) + 0x100 * Value(a[2]) + 0x1000 * Value(a[3]) + 0x1_0000 * Value(a[4]) +
    0x10_0000 * Value(a[5]) + 0x100_0000 * Value(a[6]) + 0x1000_0000 * Value(a[7])
  }

  lemma JoinIs(a: seq<Digit>)
    requires |a| == 8
    ensures Join(a) == Sum(a)
  {
    hide Value;
    assert Join(a[7..]) == Value(a[7]);
    assert Join(a[6..]) == Value(a[6]) + 16 * Join(a[7..]);
    assert Join(a[5..]) == Value(a[5]) + 16 * Join(a[6..]);
    assert Join(a[4..]) == Value(a[4]) + 16 * Join(a[5..]);
    assert Join(a[3..]) == Value(a[3]) + 16 * Join(a[4..]);
    assert Join(a[2..]) == Value(a[2]) + 16 * Join(a[3..]);
    assert Join(a[1..]) == Value(a[1]) + 16 * Join(a[2..]);
  }

  lemma XorIs(a: seq<Digit>, b: seq<Digit>, r: seq<Digit>)
    requires |a| == |b| == |r| == 8 && Differs(a, b) == r
    ensures Join(a) < 0x1_0000_0000 && Join(b) < 0x1_0000_0000
    ensures Xor32(Join(a), Join(b)) == Join(r)
  {
    hide Xor, Differs, Join, Pow2;
    WordSize();
    XorOfDigits(a, b);
  }

  lemma FirstFacts()
    ensures Xor32(0xffff_ffff, 0x61) == 0xffff_ff9e && Xor32(0x3fff_ffe7, 0xedb8_8320) == 0xd247_7cc7
  {
    hide Xor32;
    XorFact([DF, DF, DF, DF, DF, DF, DF, DF], [D1, D6, D0, D0, D0, D0, D0, D0], [DE, D9, DF, DF, DF, DF, DF, DF]);
    XorFact([D7, DE, DF, DF, DF, DF, DF, D3], Polynomial, [D7, DC, DC, D7, D7, D4, D2, DD]);
  }

  lemma SecondFacts()
    ensures Xor32(0x6923_be63, 0xedb8_8320) == 0x849b_3d43
  {
    hide Xor32;
    XorFact([D3, D6, DE, DB, D3, D2, D9, D6], Polynomial, [D3, D4, DD, D3, DB, D9, D4, D8]);
  }

  lemma LastFacts()
    ensures Xor32(0x424d_9ea1, 0xedb8_8320) == 0xaff5_1d81 && Xor32(0x57fa_8ec0, 0xedb8_8320) == 0xba42_0de0
  {
    hide Xor32;
    XorFact([D1, DA, DE, D9, DD, D4, D2, D4], Polynomial, [D1, D8, DD, D1, D5, DF, DF, DA]);
    XorFact([D0, DC, DE, D8, DA, DF, D7, D5], Polynomial, [D0, DE, DD, D0, D2, D4, DA, DB]);
  }

  lemma XorFact(a: seq<Digit>, b: seq<Digit>, r: seq<Digit>)
    requires |a| == |b| == |r| == 8 && forall k :: 0 <= k < 8 ==> Differ(a[k], b[k]) == r[k]
    ensures Sum(a) < 0x1_0000_0000 && Sum(b) < 0x1_0000_0000
    ensures Xor32(Sum(a), Sum(b)) == Sum(r)
  {
    hide Xor32, Xor, Join, Pow2, Sum, Differ;
    assert Differs(a, b) == r;
    XorIs(a, b, r);
    JoinIs(a);
    JoinIs(b);
    JoinIs(r);
  }

  lemma NextBit(c: u32, count: nat, next: u32)
    requires next == if c % 2 == 1 then Xor32(c / 2, 0xedb8_8320) else c / 2
    ensures CrcBits(c, count + 1) == CrcBits(next, count)
  {
    hide Xor32;
  }

  /** The CRC of the letter a. */
  lemma CheckValue()
    ensures CrcOf([0x61]) == 0xe8b7_be43
  {
    hide Xor32, CrcBits;
    FirstFacts();
    SecondFacts();
    LastFacts();
    NextBit(0xffff_ff9e, 7, 0x7fff_ffcf);
    NextBit(0x7fff_ffcf, 6, 0xd247_7cc7);
    NextBit(0xd247_7cc7, 5, 0x849b_3d43);
    NextBit(0x849b_3d43, 4, 0xaff5_1d81);
    NextBit(0xaff5_1d81, 3, 0xba42_0de0);
    NextBit(0xba42_0de0, 2, 0x5d21_06f0);
    NextBit(0x5d21_06f0, 1, 0x2e90_8378);
    NextBit(0x2e90_8378, 0, 0x1748_41bc);
    NoBits(0x1748_41bc);
    assert Fold<u32, byte>(CrcStep, 0xffff_ffff, [0x61]) == Fold<u32, byte>(CrcStep, CrcStep(0xffff_ffff, 0x61), []);
  }

  lemma NoBits(c: u32)
    ensures CrcBits(c, 0) == c
  {}
}
