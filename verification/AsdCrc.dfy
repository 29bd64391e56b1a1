/**
 * CRC-32/MPEG-2 of the ASD tools: the table-driven loop against the bit-serial register, and the
 * errors it is sure to detect.
 */
module AsdCrc {
  import opened Bytes

  // ------------------------------------------------------------ definition

  function Xor(a: bv32, b: bv32): bv32 { a ^ b }

  function Shl(c: bv32): bv32 { c << 1 }

  function Polynomial(): bv32 { 0x04c1_1db7 }

  predicate Top(c: bv32) { c & 0x8000_0000 != 0 }

  /** One shift of the register. */
  function Step(c: bv32): bv32
  {
    if Top(c) then Xor(Shl(c), Polynomial()) else Shl(c)
  }

  function Steps(c: bv32, n: nat): bv32
    decreases n
  {
    if n == 0 then c else Steps(Step(c), n - 1)
  }

  /** The register takes in one message bit. */
  function Shift(c: bv32, bit: bool): bv32
  {
    Step(if bit then Xor(c, 0x8000_0000) else c)
  }

  predicate HighBit(octet: bv8) { octet & 0x80 != 0 }

  /** The register takes in the high n bits of an octet, most significant bit first. */
  function ShiftBits(c: bv32, octet: bv8, n: nat): bv32
    decreases n
  {
    if n == 0 then c else ShiftBits(Shift(c, HighBit(octet)), octet << 1, n - 1)
  }

  function ShiftOctet(c: bv32, octet: bv8): bv32 { ShiftBits(c, octet, 8) }

  /** CRC-32/MPEG-2 of a message, bit by bit: initial value all ones, nothing reflected or inverted. */
  function Mpeg2(message: seq<bv8>): bv32
  {
    Fold(ShiftOctet, 0xffff_ffff, message)
  }

  // ------------------------------------------------------ bit-vector facts

  lemma XorFacts(a: bv32, b: bv32)
    ensures Xor(a, 0) == a && Xor(a, a) == 0 && Xor(a, b) == Xor(b, a)
  {}

  lemma XorAssociates(a: bv32, b: bv32, c: bv32)
    ensures Xor(Xor(a, b), c) == Xor(a, Xor(b, c))
  {}

  lemma XorDecides(a: bv32, b: bv32)
    ensures Xor(a, b) == 0 ==> a == b
  {}

  lemma TopMask(a: bv32, b: bv32)
    ensures (a ^ b) & 0x8000_0000 == (a & 0x8000_0000) ^ (b & 0x8000_0000)
  {}

  lemma TopOfXor(a: bv32, b: bv32)
    ensures Top(Xor(a, b)) == (Top(a) != Top(b))
  {
    TopMask(a, b);
  }

  lemma ShlOfXor(a: bv32, b: bv32)
    ensures Shl(Xor(a, b)) == Xor(Shl(a), Shl(b))
  {}

  lemma XorOfReduced(a: bv32, b: bv32, p: bv32)
    ensures Xor(Xor(a, p), b) == Xor(Xor(a, b), p) && Xor(a, Xor(b, p)) == Xor(Xor(a, b), p)
    ensures Xor(Xor(a, p), Xor(b, p)) == Xor(a, b)
  {}

  lemma StepIsLinear(a: bv32, b: bv32)
    ensures Step(Xor(a, b)) == Xor(Step(a), Step(b))
  {
    hide Xor, Shl, Polynomial, Top;
    TopOfXor(a, b);
    ShlOfXor(a, b);
    XorOfReduced(Shl(a), Shl(b), Polynomial());
  }

  lemma StepToZero(a: bv32)
    requires Step(a) == 0
    ensures a == 0
  {}

  lemma StepIsInjective(a: bv32, b: bv32)
    ensures Step(a) == Step(b) ==> a == b
  {
    hide Xor, Step;
    if Step(a) == Step(b) {
      StepIsLinear(a, b);
      XorFacts(Step(a), Step(b));
      StepToZero(Xor(a, b));
      XorDecides(a, b);
    }
  }

  lemma {:induction false} StepsIsLinear(a: bv32, b: bv32, n: nat)
    ensures Steps(Xor(a, b), n) == Xor(Steps(a, n), Steps(b, n))
    decreases n
  {
    hide Xor, Step;
    if n > 0 {
      StepIsLinear(a, b);
      StepsIsLinear(Step(a), Step(b), n - 1);
    }
  }

  lemma {:induction false} StepsIsInjective(a: bv32, b: bv32, n: nat)
    requires Steps(a, n) == Steps(b, n)
    ensures a == b
    decreases n
  {
    hide Step;
    if n > 0 {
      StepsIsInjective(Step(a), Step(b), n - 1);
      StepIsInjective(a, b);
    }
  }

  /** An octet on top of the register. */
  function OnTop(octet: bv8): bv32 { (octet as bv32) << 24 }

  lemma OctetTop(octet: bv8)
    ensures Top(OnTop(octet)) == HighBit(octet) && Shl(OnTop(octet)) == OnTop(octet << 1)
  {}

  lemma StepOfTopBit()
    ensures Step(0x8000_0000) == Polynomial()
  {}

  /** Shifting an octet in, seen from the register with the octet placed on top of it. */
  lemma ShiftTakesHighBit(c: bv32, octet: bv8)
    ensures Step(Xor(c, OnTop(octet))) == Xor(Shift(c, HighBit(octet)), OnTop(octet << 1))
  {
    StepIsLinear(c, OnTop(octet));
    StepIsLinear(c, 0x8000_0000);
    StepOfTopBit();
    OctetTop(octet);
    hide Xor, OnTop, Top, Shl, Polynomial, HighBit;
    assert Step(OnTop(octet)) == if HighBit(octet) then Xor(OnTop(octet << 1), Polynomial()) else OnTop(octet << 1);
    hide Step;
    XorFacts(OnTop(octet << 1), Polynomial());
    XorAssociates(Step(c), Polynomial(), OnTop(octet << 1));
  }

  function ShlOctet(octet: bv8, n: nat): bv8
    decreases n
  {
    if n == 0 then octet else ShlOctet(octet << 1, n - 1)
  }

  lemma OctetIsShiftedOut(octet: bv8)
    ensures OnTop(ShlOctet(octet, 8)) == 0
  {
    var o1, o2 := octet << 1, octet << 1 << 1;
    assert ShlOctet(octet, 8) == ShlOctet(o2 << 1 << 1, 4);
  }

  lemma {:induction false} ShiftBitsIsSteps(c: bv32, octet: bv8, n: nat)
    ensures Xor(ShiftBits(c, octet, n), OnTop(ShlOctet(octet, n))) == Steps(Xor(c, OnTop(octet)), n)
    decreases n
  {
    hide Xor, Step, Shift, HighBit, OnTop;
    if n > 0 {
      ShiftTakesHighBit(c, octet);
      ShiftBitsIsSteps(Shift(c, HighBit(octet)), octet << 1, n - 1);
    }
  }

  /** Taking in an octet is eight shifts of the register with the octet added on top. */
  lemma ShiftOctetIsSteps(c: bv32, octet: bv8)
    ensures ShiftOctet(c, octet) == Steps(Xor(c, OnTop(octet)), 8)
  {
    hide Xor, Steps, OnTop, ShlOctet, ShiftBits;
    ShiftBitsIsSteps(c, octet, 8);
    OctetIsShiftedOut(octet);
    XorFacts(ShiftBits(c, octet, 8), 0);
  }

  // ------------------------------------------------------------ the table

  /** tab[i]. */
  function TableEntry(i: bv8): bv32 { Steps(OnTop(i), 8) }

  function TopOctet(c: bv32): bv8 { (c >> 24) as bv8 }

  function LowPart(c: bv32): bv32 { c & 0x00ff_ffff }

  function Shl8(c: bv32): bv32 { c << 8 }

  /** One round of the table-driven loop. */
  function TableStep(c: bv32, octet: bv8): bv32
  {
    Xor(Shl8(c), TableEntry(TopOctet(c) ^ octet))
  }

  function Shl4(c: bv32): bv32 { Shl(Shl(Shl(Shl(c)))) }

  /** No bit of the low three octets reaches the top before the eighth shift. */
  lemma NoCarries(c: bv32)
    ensures var x := LowPart(c);
            && !Top(x) && !Top(Shl(x)) && !Top(Shl(Shl(x))) && !Top(Shl(Shl(Shl(x))))
            && !Top(Shl4(x)) && !Top(Shl(Shl4(x))) && !Top(Shl(Shl(Shl4(x)))) && !Top(Shl(Shl(Shl(Shl4(x)))))
  {}

  lemma EightShiftsOfLowPart(c: bv32)
    ensures (c & 0x00ff_ffff) << 1 << 1 << 1 << 1 << 1 << 1 << 1 << 1 == c << 8
  {}

  lemma EightShifts(c: bv32)
    ensures Shl4(Shl4(LowPart(c))) == Shl8(c)
  {
    EightShiftsOfLowPart(c);
  }

  lemma FourSteps(x: bv32)
    requires !Top(x) && !Top(Shl(x)) && !Top(Shl(Shl(x))) && !Top(Shl(Shl(Shl(x))))
    ensures Steps(x, 4) == Shl4(x)
  {
    hide Top, Shl;
  }

  lemma StepsAdd(c: bv32)
    ensures Steps(c, 8) == Steps(Steps(c, 4), 4)
  {
    hide Step;
    assert Steps(c, 8) == Steps(Step(Step(Step(Step(c)))), 4);
  }

  /** The low three octets move up without reduction. */
  lemma LowPartShifts(c: bv32)
    ensures Steps(LowPart(c), 8) == Shl8(c)
  {
    hide Steps, Top, Shl, Shl4, Shl8, LowPart;
    NoCarries(c);
    EightShifts(c);
    FourSteps(LowPart(c));
    FourSteps(Shl4(LowPart(c)));
    StepsAdd(LowPart(c));
  }

  lemma RegisterSplits(c: bv32, octet: bv8)
    ensures Xor(c, OnTop(octet)) == Xor(LowPart(c), OnTop(TopOctet(c) ^ octet))
  {}

  /** The table-driven round equals the eight bit-serial shifts. */
  lemma TableStepIsShiftOctet(c: bv32, octet: bv8)
    ensures TableStep(c, octet) == ShiftOctet(c, octet)
  {
    hide Xor, Steps, OnTop, TopOctet, LowPart, Shl8, ShiftOctet;
    ShiftOctetIsSteps(c, octet);
    RegisterSplits(c, octet);
    StepsIsLinear(LowPart(c), OnTop(TopOctet(c) ^ octet), 8);
    LowPartShifts(c);
  }

  // ------------------------------------------------------------- detection

  lemma XorCancels(a: bv32, b: bv32, m: bv32)
    requires Xor(a, m) == Xor(b, m)
    ensures a == b
  {}

  lemma ShiftOctetIsInjective(c: bv32, d: bv32, octet: bv8)
    requires ShiftOctet(c, octet) == ShiftOctet(d, octet)
    ensures c == d
  {
    hide Xor, Steps, OnTop, ShiftOctet;
    ShiftOctetIsSteps(c, octet);
    ShiftOctetIsSteps(d, octet);
    StepsIsInjective(Xor(c, OnTop(octet)), Xor(d, OnTop(octet)), 8);
    XorCancels(c, d, OnTop(octet));
  }

  /** Registers that differ before the same octets still differ behind them. */
  lemma {:induction false} DifferenceStays(c: bv32, d: bv32, s: seq<bv8>)
    requires Fold(ShiftOctet, c, s) == Fold(ShiftOctet, d, s)
    ensures c == d
    decreases |s|
  {
    hide ShiftOctet;
    if s != [] {
      DifferenceStays(ShiftOctet(c, s[0]), ShiftOctet(d, s[0]), s[1..]);
      ShiftOctetIsInjective(c, d, s[0]);
    }
  }

  function Shr8(w: bv32): bv32 { w >> 8 }

  /** Up to four octets as the register sees them, the first on top. */
  function Word(s: seq<bv8>): bv32
    requires |s| <= 4
    decreases |s|
  {
    if s == [] then 0 else Xor(OnTop(s[0]), Shr8(Word(s[1..])))
  }

  /** The low octets that a word of n octets does not fill. */
  predicate LowClear(w: bv32, n: nat)
  {
    if n == 0 then w == 0
    else if n == 1 then w & 0x00ff_ffff == 0
    else if n == 2 then w & 0x0000_ffff == 0
    else if n == 3 then w & 0x0000_00ff == 0
    else true
  }

  lemma OneMoreOctet(octet: bv8, w: bv32, n: nat)
    requires LowClear(w, n)
    ensures LowClear(Xor(OnTop(octet), Shr8(w)), n + 1)
  {}

  lemma {:induction false} WordIsLowClear(s: seq<bv8>)
    requires |s| <= 4
    ensures LowClear(Word(s), |s|)
    decreases |s|
  {
    hide Xor, OnTop, Shr8;
    if s != [] {
      WordIsLowClear(s[1..]);
      OneMoreOctet(s[0], Word(s[1..]), |s| - 1);
    }
  }

  lemma ShiftedWord(w: bv32, n: nat)
    requires n <= 3 && LowClear(w, n)
    ensures LowPart(Shr8(w)) == Shr8(w) && Shl8(Shr8(w)) == w
  {}

  lemma XorRegroups(c: bv32, t: bv32, w: bv32)
    ensures Xor(c, Xor(t, w)) == Xor(Xor(c, t), w)
  {}

  lemma {:induction false} StepsSplit(c: bv32, m: nat, n: nat)
    ensures Steps(c, m + n) == Steps(Steps(c, m), n)
    decreases m
  {
    hide Step;
    if m > 0 {
      StepsSplit(Step(c), m - 1, n);
    }
  }

  /** Taking in up to four octets is shifting the register with their word added. */
  lemma {:induction false} FoldIsSteps(c: bv32, s: seq<bv8>)
    requires |s| <= 4
    ensures Fold(ShiftOctet, c, s) == Steps(Xor(c, Word(s)), 8 * |s|)
    decreases |s|
  {
    hide Xor, OnTop, Shr8, Shl8, LowPart, ShiftOctet, Step, LowClear;
    if s == [] {
      XorFacts(c, 0);
    } else {
      var rest := Word(s[1..]);
      WordIsLowClear(s[1..]);
      ShiftedWord(rest, |s| - 1);
      XorRegroups(c, OnTop(s[0]), Shr8(rest));
      StepsSplit(Xor(c, Word(s)), 8, 8 * |s[1..]|);
      hide Steps;
      StepsIsLinear(Xor(c, OnTop(s[0])), Shr8(rest), 8);
      LowPartShifts(Shr8(rest));
      ShiftOctetIsSteps(c, s[0]);
      FoldIsSteps(ShiftOctet(c, s[0]), s[1..]);
    }
  }

  lemma WordHead(a: bv8, v: bv32, b: bv8, w: bv32, n: nat)
    requires n <= 3 && LowClear(v, n) && LowClear(w, n)
    requires Xor(OnTop(a), Shr8(v)) == Xor(OnTop(b), Shr8(w))
    ensures a == b && v == w
  {}

  lemma {:induction false} WordIsInjective(s: seq<bv8>, t: seq<bv8>)
    requires |s| == |t| <= 4 && Word(s) == Word(t)
    ensures s == t
    decreases |s|
  {
    hide Xor, OnTop, Shr8, LowClear;
    if s != [] {
      WordIsLowClear(s[1..]);
      WordIsLowClear(t[1..]);
      WordHead(s[0], Word(s[1..]), t[0], Word(t[1..]), |s| - 1);
      WordIsInjective(s[1..], t[1..]);
      assert s == [s[0]] + s[1..] && t == [t[0]] + t[1..];
    }
  }

  /** Two messages that differ inside a window of up to four octets have different CRCs. */
  lemma BurstIsDetected(pre: seq<bv8>, s: seq<bv8>, t: seq<bv8>, post: seq<bv8>)
    requires |s| == |t| <= 4 && s != t
    ensures Mpeg2(pre + s + post) != Mpeg2(pre + t + post)
  {
    hide Xor, Word, ShiftOctet, Steps;
    var c := Fold(ShiftOctet, 0xffff_ffff, pre);
    FoldAppend(ShiftOctet, 0xffff_ffff, pre + s, post);
    FoldAppend(ShiftOctet, 0xffff_ffff, pre + t, post);
    FoldAppend(ShiftOctet, 0xffff_ffff, pre, s);
    FoldAppend(ShiftOctet, 0xffff_ffff, pre, t);
    FoldIsSteps(c, s);
    FoldIsSteps(c, t);
    if Mpeg2(pre + s + post) == Mpeg2(pre + t + post) {
      DifferenceStays(Fold(ShiftOctet, c, s), Fold(ShiftOctet, c, t), post);
      StepsIsInjective(Xor(c, Word(s)), Xor(c, Word(t)), 8 * |s|);
      XorFacts(c, Word(s));
      XorFacts(c, Word(t));
      XorCancels(Word(s), Word(t), c);
      WordIsInjective(s, t);
    }
  }

  // --------------------------------------------------- the published check

  lemma Takes(c: bv32, octet: bv8, rest: seq<bv8>)
    ensures Fold(ShiftOctet, c, [octet] + rest) == Fold(ShiftOctet, ShiftOctet(c, octet), rest)
  {
    assert ([octet] + rest)[1..] == rest;
    hide ShiftOctet;
  }

  lemma FirstDigits()
    ensures ShiftOctet(0xffff_ffff, 0x31) == 0x9efb_cf93 && ShiftOctet(0x9efb_cf93, 0x32) == 0x3fec_5e6a
    ensures ShiftOctet(0x3fec_5e6a, 0x33) == 0xd952_f164 && ShiftOctet(0xd952_f164, 0x34) == 0xa695_c4aa
    ensures ShiftOctet(0xa695_c4aa, 0x35) == 0xbd9a_b747
  {}

  lemma LastDigits()
    ensures ShiftOctet(0xbd9a_b747, 0x36) == 0xd8f0_6c8f && ShiftOctet(0xd8f0_6c8f, 0x37) == 0x0d8a_14c4
    ensures ShiftOctet(0x0d8a_14c4, 0x38) == 0x49e3_c2fb && ShiftOctet(0x49e3_c2fb, 0x39) == 0x0376_e6e7
  {}

  /** The CRC of the digits one to nine is the one published for CRC-32/MPEG-2. */
  lemma CheckValue()
    ensures Mpeg2([0x31, 0x32, 0x33, 0x34, 0x35, 0x36, 0x37, 0x38, 0x39]) == 0x0376_e6e7
  {
    FirstDigits();
    LastDigits();
    hide ShiftOctet;
    var s: seq<bv8> := [0x31, 0x32, 0x33, 0x34, 0x35, 0x36, 0x37, 0x38, 0x39];
    assert forall k: nat :: k < 9 ==> s[k..] == [s[k]] + s[k + 1..];
    Takes(0xffff_ffff, 0x31, s[1..]);
    Takes(0x9efb_cf93, 0x32, s[2..]);
    Takes(0x3fec_5e6a, 0x33, s[3..]);
    Takes(0xd952_f164, 0x34, s[4..]);
    Takes(0xa695_c4aa, 0x35, s[5..]);
    Takes(0xbd9a_b747, 0x36, s[6..]);
    Takes(0xd8f0_6c8f, 0x37, s[7..]);
    Takes(0x0d8a_14c4, 0x38, s[8..]);
    Takes(0x49e3_c2fb, 0x39, s[9..]);
  }
}
