/** What the ROM loader picks from an archive of any making: its first acceptable member, field by field. */
module ZipForeignSelect {
  import opened Bytes
  import opened ZipDirectory
  import opened ZipForeign
  import opened ZipFormat
  import opened ZipSelect

  /** A name in a buffer of 256 octets. */
  function Held(name: seq<byte>): seq<byte>
  {
    CString(if |name| > 255 then name[..255] else name)
  }

  /** A name that fits is held whole. */
  lemma {:induction false} HeldWhole(name: seq<byte>)
    requires |name| <= 255 && 0 !in name
    ensures Held(name) == name
    decreases |name|
  {
    if name != [] { HeldWhole(name[1..]); }
  }

  /** The loader takes the member. */
  ghost predicate Offered(m: Member, valid: seq<byte>)
  {
    && (m.scheme == 0 || m.scheme == 8) && m.record.flags % 2 == 0 && 0 < m.size <= 0x400_0000
    && (Held(m.name) == [] || Held(m.name)[|Held(m.name)| - 1] != 0x2f)
    && ExtensionAccepted(Held(m.name), valid)
  }

  /** The loader's record of a member whose local part stands at `at`. */
  predicate IsEntryOf(r: RomEntry, m: Member, at: nat)
  {
    && r.name == Held(m.name) && r.flags == m.record.flags && r.scheme == m.scheme && r.crc == m.crc
    && r.compressedSize == |m.packed| && r.uncompressedSize == m.size && r.localOffset == at
  }

  lemma RecordOffered(pre: seq<byte>, m: Member, at: u32, post: seq<byte>, valid: seq<byte>)
    requires Fits(m) && at != 0xffff_ffff
    ensures var cd := pre + CentralPart(m, at) + post;
            && |pre| + |CentralPart(m, at)| <= |cd|
            && Get32(cd, |pre|) == CENTRAL_SIGNATURE
            && RecordSize(cd, |pre|) == |CentralPart(m, at)|
            && (Eligible(cd, |pre|, valid) <==> Offered(m, valid))
            && IsEntryOf(EntryAt(cd, |pre|), m, at)
  {
    hide CentralPart, ExtensionAccepted, Get16, Get32, RecordSize, RecordName, CString;
    RecordOk(pre, m, at, post);
  }

  /** The first member that is offered, or the number of members. */
  ghost function FirstOffered(members: seq<Member>, valid: seq<byte>): (k: nat)
    ensures k <= |members|
    decreases |members|
  {
    if members == [] || Offered(members[0], valid) then 0 else 1 + FirstOffered(members[1..], valid)
  }

  lemma {:induction false} FirstIsOffered(members: seq<Member>, valid: seq<byte>)
    ensures var k := FirstOffered(members, valid);
            && (forall j: nat :: j < k ==> !Offered(members[j], valid))
            && (k < |members| ==> Offered(members[k], valid))
    decreases |members|
  {
    hide Offered;
    if members != [] { FirstIsOffered(members[1..], valid); }
  }

  lemma {:induction false} WalkPicks(zip: seq<byte>, whole: seq<byte>, pre: seq<byte>, members: seq<Member>, at: nat,
                                     post: seq<byte>, valid: seq<byte>)
    requires (forall m :: m in members ==> Fits(m)) && at + |Body(members)| < 0xffff_ffff
    requires zip == pre + Records(members, at) + post && Stands(whole, at, Body(members))
    ensures var picked, k := WholeWalk(zip, |pre|, |members|, valid), FirstOffered(members, valid);
            && (picked.None? <==> k == |members|)
            && (picked.Some? ==> IsEntryOf(picked.value, members[k], picked.value.localOffset) &&
                                 Stands(whole, picked.value.localOffset, LocalPart(members[k])))
    decreases |members|
  {
    hide Eligible, EntryAt, Offered, IsEntryOf, CentralPart, LocalPart, Stands, RecordSize, Get32;
    if members != [] {
      var m, rest := members[0], members[1..];
      var here := at + |m.before|;
      var next := here + |LocalPart(m)|;
      var record := CentralPart(m, here);
      StandsInside(whole, at, m.before, LocalPart(m), Body(rest));
      assert zip == pre + record + (Records(rest, next) + post);
      RecordOffered(pre, m, here, Records(rest, next) + post, valid);
      if Offered(m, valid) {
        OffsetOf(EntryAt(zip, |pre|), m, here);
      } else {
        assert zip == (pre + record) + Records(rest, next) + post;
        WalkPicks(zip, whole, pre + record, rest, next, post, valid);
      }
    }
  }

  lemma OffsetOf(r: RomEntry, m: Member, at: nat)
    requires IsEntryOf(r, m, at)
    ensures r.localOffset == at
  {}

  /**
   * The loader picks the first member it can take, with that member's fields; its local part stands
   * where the record says.
   */
  lemma PicksFirstOffered(members: seq<Member>, e: Ending, valid: seq<byte>)
    requires Packable(members, e) && Ends(members, e)
    ensures var zip, k := Laid(members, e), FirstOffered(members, valid);
            var picked := SelectWhole(zip, valid);
            && (forall j: nat :: j < k ==> !Offered(members[j], valid))
            && (k < |members| ==> Offered(members[k], valid))
            && (picked.None? <==> k == |members|)
            && (picked.Some? ==> IsEntryOf(picked.value, members[k], picked.value.localOffset) &&
                                 Stands(zip, picked.value.localOffset, LocalPart(members[k])))
  {
    hide Get16, Get32, EndPosition, FindEnd, WholeWalk, EndsAt, EndPart, Body, Records, IsEntryOf, LocalPart, Offered;
    var zip := Laid(members, e);
    FirstIsOffered(members, valid);
    EndPartIs(members, e);
    EndingIsFound(Front(members, e), EndPart(members, e));
    EndPositionIsWholeSearch(zip);
    PartsStand(members, e);
    var pre := Body(members) + e.before;
    var post := e.between + EndPart(members, e);
    assert zip == pre + Records(members, 0) + post;
    WalkPicks(zip, zip, pre, members, 0, post, valid);
  }
}
