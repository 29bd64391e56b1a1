/** Octets, fixed-width little-endian fields, and small facts about byte sequences. */
module Bytes {

  type byte = b: int | 0 <= b < 0x100
  type u16 = v: int | 0 <= v < 0x1_0000
  type u32 = v: int | 0 <= v < 0x1_0000_0000

  datatype Option<+T> = None | Some(value: T)

  /** put16: least significant octet first. */
  function Put16(v: u16): (s: seq<byte>)
    ensures |s| == 2
  {
    [v % 0x100, v / 0x100]
  }

  /** put32: least significant octet first. */
  function Put32(v: u32): (s: seq<byte>)
    ensures |s| == 4
  {
    [v % 0x100, v / 0x100 % 0x100, v / 0x1_0000 % 0x100, v / 0x100_0000]
  }

  function Get16(s: seq<byte>, at: nat): u16
    requires at + 2 <= |s|
  {
    s[at] as int + 0x100 * (s[at + 1] as int)
  }

  function Get32(s: seq<byte>, at: nat): u32
    requires at + 4 <= |s|
  {
    s[at] as int + 0x100 * (s[at + 1] as int) +
    0x1_0000 * (s[at + 2] as int) + 0x100_0000 * (s[at + 3] as int)
  }

  lemma Get32Put32(v: u32)
    ensures Get32(Put32(v), 0) == v
  {
    assert v / 0x1_0000 == v / 0x100 / 0x100;
    assert v / 0x100_0000 == v / 0x100 / 0x100 / 0x100;
  }

  /** A field of a slice is the same field of the whole sequence. */
  lemma FieldOfSlice(s: seq<byte>, lo: nat, hi: nat, at: nat)
    requires lo <= hi <= |s|
    ensures at + 2 <= hi - lo ==> Get16(s[lo..hi], at) == Get16(s, lo + at)
    ensures at + 4 <= hi - lo ==> Get32(s[lo..hi], at) == Get32(s, lo + at)
  {}

  /** Writing `bytes` at `at`, as fwrite does at a position inside the file or at its end. */
  function Overlay(s: seq<byte>, at: nat, bytes: seq<byte>): (r: seq<byte>)
    requires at <= |s|
    ensures |r| == if at + |bytes| <= |s| then |s| else at + |bytes|
    ensures forall k :: 0 <= k < |r| ==>
              r[k] == if at <= k < at + |bytes| then bytes[k - at] else s[k]
  {
    s[..at] + bytes + (if at + |bytes| <= |s| then s[at + |bytes|..] else [])
  }

  /** A C string: the octets before the first NUL. */
  function CString(s: seq<byte>): (r: seq<byte>)
    ensures r <= s && 0 !in r
  {
    if s == [] || s[0] == 0 then [] else [s[0]] + CString(s[1..])
  }

  lemma SliceOfSlice<T>(s: seq<T>, lo: nat, hi: nat, a: nat, b: nat)
    requires lo <= hi <= |s| && a <= b <= hi - lo
    ensures s[lo..hi][a..b] == s[lo + a..lo + b]
  {
    var mid := s[lo..hi];
    assert forall k :: a <= k < b ==> mid[k] == s[lo + k];
    assert mid[a..b] == s[lo + a..lo + b];
  }

  lemma SlicesJoin<T>(s: seq<T>, a: nat, b: nat, c: nat)
    requires a <= b <= c <= |s|
    ensures s[a..b] + s[b..c] == s[a..c]
  {}

  lemma SliceOfAppend(s: seq<byte>, t: seq<byte>, lo: nat, hi: nat)
    requires lo <= hi <= |s|
    ensures (s + t)[lo..hi] == s[lo..hi]
  {}

  /** Left fold, the shape of every checksum loop. */
  function Fold<S, A>(f: (S, A) -> S, c: S, s: seq<A>): S
    decreases |s|
  {
    if s == [] then c else Fold(f, f(c, s[0]), s[1..])
  }

  lemma {:induction false} FoldAppend<S, A>(f: (S, A) -> S, c: S, s: seq<A>, t: seq<A>)
    ensures Fold(f, c, s + t) == Fold(f, Fold(f, c, s), t)
    decreases |s|
  {
    if s == [] {
      assert s + t == t;
    } else {
      assert (s + t)[1..] == s[1..] + t;
      FoldAppend(f, f(c, s[0]), s[1..], t);
    }
  }
}
