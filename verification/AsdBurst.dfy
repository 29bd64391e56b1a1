/**
 * Error bursts: CRC-32/MPEG-2 detects every change within 32 consecutive bits, wherever in the
 * message they begin.
 */
module AsdBurst {
  import opened Bytes
  import opened AsdCrc

  // ------------------------------------------------------------------ bits

  function MaskOf(k: nat): bv8
    requires k < 8
  {
    if k == 0 then 0x80 else if k == 1 then 0x40 else if k == 2 then 0x20 else if k == 3 then 0x10
    else if k == 4 then 0x08 else if k == 5 then 0x04 else if k == 6 then 0x02 else 0x01
  }

  /** A bit of an octet, the most significant one first. */
  predicate BitOf(octet: bv8, k: nat)
    requires k < 8
  {
    octet & MaskOf(k) != 0
  }

  /** A bit of a message. */
  predicate MessageBit(message: seq<bv8>, i: nat)
    requires i < 8 * |message|
  {
    BitOf(message[i / 8], i % 8)
  }

  /** The messages differ in no bit outside the 32 that begin at a bit. */
  ghost predicate Burst(m: seq<bv8>, n: seq<bv8>, at: nat)
    requires |m| == |n|
  {
    forall i :: 0 <= i < 8 * |m| && !(at <= i < at + 32) ==> MessageBit(m, i) == MessageBit(n, i)
  }

  lemma MaskOfXor(a: bv8, b: bv8, mask: bv8)
    ensures (a ^ b) & mask == (a & mask) ^ (b & mask)
  {}

  lemma MaskTakesOneBit(a: bv8, k: nat)
    requires k < 8
    ensures a & MaskOf(k) == 0 || a & MaskOf(k) == MaskOf(k)
    ensures MaskOf(k) != 0
  {}

  lemma XorOfOne(x: bv8, y: bv8, mask: bv8)
    requires mask != 0 && (x == 0 || x == mask) && (y == 0 || y == mask)
    ensures x ^ y != 0 <==> (x != 0) != (y != 0)
  {}

  lemma BitsOfXor(a: bv8, b: bv8, k: nat)
    requires k < 8
    ensures BitOf(a ^ b, k) == (BitOf(a, k) != BitOf(b, k))
  {
    hide MaskOf;
    MaskOfXor(a, b, MaskOf(k));
    MaskTakesOneBit(a, k);
    MaskTakesOneBit(b, k);
    XorOfOne(a & MaskOf(k), b & MaskOf(k), MaskOf(k));
  }

  /** The octets differ in none of their first j bits. */
  ghost predicate HeadsAgree(a: bv8, b: bv8, j: nat)
    requires j <= 8
  {
    forall k :: 0 <= k < j ==> BitOf(a, k) == BitOf(b, k)
  }

  /** The octets differ in none but their first j bits. */
  ghost predicate TailsAgree(a: bv8, b: bv8, j: nat)
  {
    forall k :: j <= k < 8 ==> BitOf(a, k) == BitOf(b, k)
  }

  /** The octet has none but its first j bits. */
  ghost predicate TailClear(a: bv8, j: nat)
  {
    forall k :: j <= k < 8 ==> !BitOf(a, k)
  }

  lemma TailMoves(octet: bv8, j: nat)
    requires 0 < j && TailClear(octet, j)
    ensures TailClear(octet << 1, j - 1)
  {
    hide BitOf;
    var moved := octet << 1;
    forall k | j - 1 <= k < 8 ensures !BitOf(moved, k) { BitMoves(octet, k); }
  }

  lemma TailOfXor(a: bv8, b: bv8, j: nat)
    requires TailsAgree(a, b, j)
    ensures TailClear(a ^ b, j)
  {
    hide BitOf;
    var both := a ^ b;
    forall k | j <= k < 8 ensures !BitOf(both, k) { BitsOfXor(a, b, k); }
  }

  lemma OctetHasBits(a: bv8)
    requires a != 0
    ensures exists k :: 0 <= k < 8 && BitOf(a, k)
  {
    if !BitOf(a, 0) && !BitOf(a, 1) && !BitOf(a, 2) && !BitOf(a, 3) && !BitOf(a, 4) && !BitOf(a, 5) && !BitOf(a, 6) {
      assert BitOf(a, 7);
    }
  }

  lemma XorIsZero(a: bv8, b: bv8)
    requires a ^ b == 0
    ensures a == b
  {}

  lemma SameBits(a: bv8, b: bv8)
    requires forall k :: 0 <= k < 8 ==> BitOf(a, k) == BitOf(b, k)
    ensures a == b
  {
    hide BitOf;
    if a ^ b != 0 {
      OctetHasBits(a ^ b);
      var k :| 0 <= k < 8 && BitOf(a ^ b, k);
      BitsOfXor(a, b, k);
      assert false;
    }
    XorIsZero(a, b);
  }

  // ------------------------------------------- five octets in the register

  /** A bit of the register's highest octet. */
  predicate WordBit(w: bv32, k: nat)
    requires k < 8
  {
    w & OnTop(MaskOf(k)) != 0
  }

  function LowBit(bit: bool): bv32 { if bit then 1 else 0 }

  /** A word and the octet behind it, moved up by one bit. */
  function Join(w: bv32, octet: bv8): bv32 { Xor(Shl(w), LowBit(HighBit(octet))) }

  /** Where the difference of two registers stands when a word and an octet have been taken in. */
  function Register(w: bv32, octet: bv8): bv32 { Xor(Steps(w, 32), OnTop(octet)) }

  lemma BitMoves(octet: bv8, k: nat)
    requires k < 8
    ensures BitOf(octet << 1, k) == (k < 7 && BitOf(octet, k + 1))
  {}

  lemma WordBitMoves(w: bv32, octet: bv8, k: nat)
    requires k < 7
    ensures WordBit(Join(w, octet), k) == WordBit(w, k + 1)
  {}

  lemma FirstBit(w: bv32)
    ensures WordBit(w, 0) == Top(w)
  {}

  lemma LowOctetRises()
    ensures LowPart(1) == 1 && Shl8(1) == 0x100
    ensures LowPart(0x100) == 0x100 && Shl8(0x100) == 0x1_0000
    ensures LowPart(0x1_0000) == 0x1_0000 && Shl8(0x1_0000) == 0x100_0000
  {}

  lemma OneReachesTop()
    ensures Steps(0x100_0000, 8) == Polynomial()
  {
    StepsSplit(0x100_0000, 4, 4);
    assert Steps(0x100_0000, 4) == 0x1000_0000;
    assert Step(Step(Step(0x1000_0000))) == 0x8000_0000;
    StepOfTopBit();
    assert Steps(0x1000_0000, 4) == Steps(Step(Step(Step(0x1000_0000))), 1);
  }

  /** A bit that enters at the lowest place leaves at the top 32 shifts later. */
  lemma StepsOfOne()
    ensures Steps(1, 32) == Polynomial()
  {
    hide Steps, Step, Polynomial;
    LowOctetRises();
    LowPartShifts(1);
    LowPartShifts(0x100);
    LowPartShifts(0x1_0000);
    OneReachesTop();
    StepsSplit(1, 8, 24);
    StepsSplit(0x100, 8, 16);
    StepsSplit(0x1_0000, 8, 8);
  }

  lemma {:induction false} StepsOfZero(n: nat)
    ensures Steps(0, n) == 0
  {
    if n > 0 {
      assert Step(0) == 0;
      StepsOfZero(n - 1);
    }
  }

  lemma StepsOfLowBit(bit: bool)
    ensures Steps(LowBit(bit), 32) == if bit then Polynomial() else 0
  {
    hide Steps, Polynomial;
    StepsOfOne();
    StepsOfZero(32);
  }

  lemma StepOfOnTop(octet: bv8)
    ensures Step(OnTop(octet)) == Xor(OnTop(octet << 1), if HighBit(octet) then Polynomial() else 0)
  {
    hide OnTop, Xor, Shl, Top, Polynomial, HighBit;
    OctetTop(octet);
    XorFacts(OnTop(octet << 1), 0);
  }

  lemma StepsCommute(w: bv32, n: nat)
    ensures Step(Steps(w, n)) == Steps(Step(w), n)
  {
    hide Step;
    StepsSplit(w, 1, n);
    StepsSplit(w, n, 1);
    assert Steps(Steps(w, n), 1) == Step(Steps(w, n)) && Steps(w, 1) == Step(w);
  }

  lemma XorMiddle(a: bv32, p: bv32, t: bv32)
    ensures Xor(a, Xor(t, p)) == Xor(Xor(a, p), t)
  {}

  /** One more shift moves word and octet up by one bit. */
  lemma RegisterMoves(w: bv32, octet: bv8)
    requires !Top(w)
    ensures Step(Register(w, octet)) == Register(Join(w, octet), octet << 1)
  {
    hide Steps, Xor, OnTop, Polynomial, HighBit, LowBit;
    StepsCommute(w, 32);
    StepOfOnTop(octet);
    StepsOfLowBit(HighBit(octet));
    StepsIsLinear(Shl(w), LowBit(HighBit(octet)), 32);
    assert Step(w) == Shl(w);
    var p := if HighBit(octet) then Polynomial() else 0;
    hide Step;
    StepIsLinear(Steps(w, 32), OnTop(octet));
    XorMiddle(Steps(Shl(w), 32), p, OnTop(octet << 1));
  }

  lemma NothingJoined(w: bv32, octet: bv8)
    requires !Top(w) && Join(w, octet) == 0 && octet << 1 == 0
    ensures w == 0 && octet == 0
  {}

  lemma WordLeaves(w: bv32)
    requires Xor(w, OnTop(0)) == 0
    ensures w == 0
  {}

  /**
   * A difference of at most 32 bits in a word and the octet behind it: the first j bits of the word
   * and all but the first j of the octet are clear. It leaves the register clear only if it is none.
   */
  lemma {:induction false} NoTrace(w: bv32, octet: bv8, j: nat)
    requires j <= 8 && Register(w, octet) == 0
    requires forall k :: 0 <= k < j ==> !WordBit(w, k)
    requires TailClear(octet, j)
    ensures w == 0 && octet == 0
    decreases j
  {
    hide Steps, Xor, WordBit, BitOf, Top, Join, Step;
    if j == 0 {
      if octet != 0 { OctetHasBits(octet); }
      WordLeaves(Steps(w, 32));
      StepsOfZero(32);
      StepsIsInjective(w, 0, 32);
    } else {
      FirstBit(w);
      RegisterMoves(w, octet);
      assert Step(0) == 0 by { StepIsZero(); }
      hide Register;
      forall k | 0 <= k < j - 1 ensures !WordBit(Join(w, octet), k) { WordBitMoves(w, octet, k); }
      TailMoves(octet, j);
      NoTrace(Join(w, octet), octet << 1, j - 1);
      NothingJoined(w, octet);
    }
  }

  lemma StepIsZero()
    ensures Step(0) == 0
  {}

  // -------------------------------------------------------- whole messages

  lemma FifthOctet(c: bv32, s: seq<bv8>)
    requires |s| == 5
    ensures Fold(ShiftOctet, c, s) == Steps(Xor(Steps(Xor(c, Word(s[..4])), 32), OnTop(s[4])), 8)
  {
    hide Steps, Xor, OnTop, Word, ShiftOctet;
    FoldAppend(ShiftOctet, c, s[..4], [s[4]]);
    assert s == s[..4] + [s[4]] && [s[4]][1..] == [];
    FoldIsSteps(c, s[..4]);
    ShiftOctetIsSteps(Fold(ShiftOctet, c, s[..4]), s[4]);
  }

  lemma OnTopOfXor(a: bv8, b: bv8)
    ensures OnTop(a ^ b) == Xor(OnTop(a), OnTop(b))
  {}

  lemma XorMoves(c: bv32, x: bv32, y: bv32, v: bv32, w: bv32)
    requires Xor(Xor(c, x), v) == Xor(Xor(c, y), w)
    ensures Xor(Xor(x, y), Xor(v, w)) == 0
  {
    hide Xor;
    XorAssociates(c, x, v);
    XorAssociates(c, y, w);
    XorFacts(c, Xor(x, v));
    XorFacts(c, Xor(y, w));
    XorCancels(Xor(x, v), Xor(y, w), c);
    XorAssociates(x, y, Xor(v, w));
    XorAssociates(y, v, w);
    XorFacts(y, v);
    XorAssociates(v, y, w);
    XorAssociates(x, v, Xor(y, w));
    XorFacts(Xor(x, v), 0);
  }

  lemma XorOfTops(a: bv8, b: bv8, x: bv32, y: bv32, c: bv32)
    requires Xor(Xor(c, x), OnTop(a)) == Xor(Xor(c, y), OnTop(b))
    ensures Xor(Xor(x, y), OnTop(a ^ b)) == 0
  {
    hide Xor, OnTop;
    OnTopOfXor(a, b);
    XorMoves(c, x, y, OnTop(a), OnTop(b));
  }

  lemma SameRegister(c: bv32, s: seq<bv8>, t: seq<bv8>)
    requires |s| == |t| == 5 && Fold(ShiftOctet, c, s) == Fold(ShiftOctet, c, t)
    ensures Register(Xor(Word(s[..4]), Word(t[..4])), s[4] ^ t[4]) == 0
  {
    hide Steps, Xor, OnTop, Word, ShiftOctet;
    FifthOctet(c, s);
    FifthOctet(c, t);
    var v, w := Word(s[..4]), Word(t[..4]);
    StepsIsInjective(Xor(Steps(Xor(c, v), 32), OnTop(s[4])), Xor(Steps(Xor(c, w), 32), OnTop(t[4])), 8);
    StepsIsLinear(c, v, 32);
    StepsIsLinear(c, w, 32);
    StepsIsLinear(v, w, 32);
    XorOfTops(s[4], t[4], Steps(v, 32), Steps(w, 32), Steps(c, 32));
  }

  lemma WordBitOfXor(v: bv32, w: bv32, k: nat)
    requires k < 8
    ensures WordBit(Xor(v, w), k) == (WordBit(v, k) != WordBit(w, k))
  {}

  lemma WordBitIsFirst(octet: bv8, rest: bv32, k: nat)
    requires k < 8
    ensures WordBit(Xor(OnTop(octet), Shr8(rest)), k) == BitOf(octet, k)
  {}

  lemma FirstOctetOnTop(s: seq<bv8>, k: nat)
    requires 0 < |s| <= 4 && k < 8
    ensures WordBit(Word(s), k) == BitOf(s[0], k)
  {
    hide WordBit, BitOf, Xor, OnTop, Shr8;
    WordBitIsFirst(s[0], Word(s[1..]), k);
  }

  lemma HeadsInWord(s: seq<bv8>, t: seq<bv8>, j: nat)
    requires 0 < |s| == |t| <= 4 && j <= 8 && HeadsAgree(s[0], t[0], j)
    ensures forall k :: 0 <= k < j ==> !WordBit(Xor(Word(s), Word(t)), k)
  {
    hide Xor, Word, WordBit, BitOf;
    forall k | 0 <= k < j ensures !WordBit(Xor(Word(s), Word(t)), k) {
      WordBitOfXor(Word(s), Word(t), k);
      FirstOctetOnTop(s, k);
      FirstOctetOnTop(t, k);
    }
  }

  lemma FourAndOne(s: seq<bv8>, t: seq<bv8>)
    requires |s| == |t| == 5 && s[..4] == t[..4] && s[4] == t[4]
    ensures s == t
  {
    assert s == s[..4] + [s[4]] && t == t[..4] + [t[4]];
  }

  lemma FiveOctetsDiffer(c: bv32, s: seq<bv8>, t: seq<bv8>, j: nat)
    requires |s| == |t| == 5 && j <= 8 && Fold(ShiftOctet, c, s) == Fold(ShiftOctet, c, t)
    requires HeadsAgree(s[0], t[0], j) && TailsAgree(s[4], t[4], j)
    ensures s == t
  {
    hide *;
    SameRegister(c, s, t);
    var v, w := s[..4], t[..4];
    assert v[0] == s[0] && w[0] == t[0];
    HeadsInWord(v, w, j);
    TailOfXor(s[4], t[4], j);
    NoTrace(Xor(Word(v), Word(w)), s[4] ^ t[4], j);
    XorDecides(Word(v), Word(w));
    XorIsZero(s[4], t[4]);
    WordIsInjective(v, w);
    FourAndOne(s, t);
  }

  lemma OctetsAgree(m: seq<bv8>, n: seq<bv8>, at: nat, i: nat)
    requires |m| == |n| && Burst(m, n, at) && i < |m| && !(at / 8 <= i < at / 8 + 5)
    ensures m[i] == n[i]
  {
    hide BitOf;
    forall k | 0 <= k < 8 ensures BitOf(m[i], k) == BitOf(n[i], k) {
      assert (8 * i + k) / 8 == i && (8 * i + k) % 8 == k;
      assert MessageBit(m, 8 * i + k) == MessageBit(n, 8 * i + k);
    }
    SameBits(m[i], n[i]);
  }

  lemma WindowEnds(m: seq<bv8>, n: seq<bv8>, at: nat)
    requires |m| == |n| && Burst(m, n, at) && at / 8 + 5 <= |m|
    ensures HeadsAgree(m[at / 8], n[at / 8], at % 8) && TailsAgree(m[at / 8 + 4], n[at / 8 + 4], at % 8)
  {
    hide BitOf;
    var p := at / 8;
    forall k | 0 <= k < at % 8 ensures BitOf(m[p], k) == BitOf(n[p], k) {
      assert (8 * p + k) / 8 == p && (8 * p + k) % 8 == k;
      assert MessageBit(m, 8 * p + k) == MessageBit(n, 8 * p + k);
    }
    var q, r := m[p + 4], n[p + 4];
    forall k | at % 8 <= k < 8 ensures BitOf(q, k) == BitOf(r, k) {
      assert (8 * (p + 4) + k) / 8 == p + 4 && (8 * (p + 4) + k) % 8 == k;
      assert MessageBit(m, 8 * (p + 4) + k) == MessageBit(n, 8 * (p + 4) + k);
    }
  }

  /** Two messages that differ, but only within 32 consecutive bits, have different CRCs. */
  lemma EveryBurstIsDetected(m: seq<bv8>, n: seq<bv8>, at: nat)
    requires |m| == |n| && m != n && Burst(m, n, at)
    ensures Mpeg2(m) != Mpeg2(n)
  {
    hide ShiftOctet, BitOf, Mpeg2, Burst, HeadsAgree, TailsAgree;
    var p := at / 8;
    forall i | 0 <= i < |m| && !(p <= i < p + 5) ensures m[i] == n[i] { OctetsAgree(m, n, at, i); }
    if p >= |m| {
      assert false;
    } else if |m| < p + 5 {
      assert m == m[..p] + m[p..] + [] && n == m[..p] + n[p..] + [];
      BurstIsDetected(m[..p], m[p..], n[p..], []);
    } else {
      WindowEnds(m, n, at);
      assert m == m[..p] + m[p..p + 5] + m[p + 5..] && n == m[..p] + n[p..p + 5] + m[p + 5..];
      FiveOctetBurst(m[..p], m[p..p + 5], n[p..p + 5], m[p + 5..], at % 8);
    }
  }

  lemma FiveOctetBurst(pre: seq<bv8>, s: seq<bv8>, t: seq<bv8>, post: seq<bv8>, j: nat)
    requires |s| == |t| == 5 && s != t && j <= 8
    requires HeadsAgree(s[0], t[0], j) && TailsAgree(s[4], t[4], j)
    ensures Mpeg2(pre + s + post) != Mpeg2(pre + t + post)
  {
    hide ShiftOctet, BitOf;
    var c := Fold(ShiftOctet, 0xffff_ffff, pre);
    FoldAppend(ShiftOctet, 0xffff_ffff, pre + s, post);
    FoldAppend(ShiftOctet, 0xffff_ffff, pre + t, post);
    FoldAppend(ShiftOctet, 0xffff_ffff, pre, s);
    FoldAppend(ShiftOctet, 0xffff_ffff, pre, t);
    if Mpeg2(pre + s + post) == Mpeg2(pre + t + post) {
      DifferenceStays(Fold(ShiftOctet, c, s), Fold(ShiftOctet, c, t), post);
      FiveOctetsDiffer(c, s, t, j);
    }
  }
}
