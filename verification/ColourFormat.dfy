/** The sixteen-bit colours of framebuffers and decoded images. */
module ColourFormat {
  import opened Bytes

  /** Five, six and five bits, the low bits of each channel dropped. */
  function Rgb565(r: byte, g: byte, b: byte): (c: u16)
    ensures c as int / 2048 == r as int / 8 && c as int / 32 % 64 == g as int / 4 && c as int % 32 == b as int / 8
  {
    FieldsPack(r as int / 8, g as int / 4, b as int / 8);
    r / 8 * 2048 + g / 4 * 32 + b / 8
  }

  lemma FieldsPack(r: nat, g: nat, b: nat)
    requires r < 32 && g < 64 && b < 32
    ensures var c := r * 2048 + g * 32 + b; c < 0x1_0000 && c / 2048 == r && c / 32 % 64 == g && c % 32 == b
  {
    var c := r * 2048 + g * 32 + b;
    assert c / 32 == r * 64 + g;
  }
}
