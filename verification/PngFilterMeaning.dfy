/** The row filters by the words of the W3C PNG specification, sections 9.1 and 9.2. */
module PngFilterMeaning {
  import opened Bytes
  import opened PngFilter
  import opened PngPixels

  /**
   * What undoing each filter adds modulo 256: nothing, the left octet, the upper one, their mean
   * rounded down, or the neighbour nearest to left + up - upLeft.
   */
  lemma UndoAdds(f: byte, v: byte, left: byte, up: byte, upLeft: byte) returns (added: byte)
    requires f <= 4
    ensures (Undo(f, v, left, up, upLeft) as int - v as int - added as int) % 0x100 == 0
    ensures f == 0 ==> added == 0
    ensures f == 1 ==> added == left
    ensures f == 2 ==> added == up
    ensures f == 3 ==> 2 * added as int <= left as int + up as int <= 2 * added as int + 1
    ensures f == 4 ==> added in [left, up, upLeft] &&
                       forall n :: n in [left, up, upLeft] ==>
                         Abs(left as int + up as int - upLeft as int - added as int) <=
                         Abs(left as int + up as int - upLeft as int - n as int)
  {
    added := Predict(f, left, up, upLeft);
    Differs(v, added);
    if f == 4 { PaethIsNearest(left, up, upLeft); }
  }

  lemma Differs(v: int, p: int)
    ensures ((v + p) % 0x100 - v - p) % 0x100 == 0
  {}

  /** The filters look back by the fewest whole octets that hold a pixel, and by one at least. */
  lemma FilterDistance(f: Format)
    requires Accepted(f)
    ensures var samples := if f.colour == 2 then 3 else if f.colour == 4 then 2 else if f.colour == 6 then 4 else 1;
            var octets := FilterBpp(f);
            && 0 < octets && samples * f.depth <= 8 * octets && 8 * (octets - 1) < samples * f.depth
  {}
}
