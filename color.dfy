/** Colours: three 8-bit channels. The colour type's own file is not part of
    this model; `Color::from_hex` is taken to split a 24-bit value into its
    red, green and blue bytes, high byte first. */
module Colors {

  datatype Color = Color(r: bv8, g: bv8, b: bv8)

  /** Color::from_hex */
  function FromHex(h: bv32): Color {
    Color(((h >> 16) & 0xFF) as bv8, ((h >> 8) & 0xFF) as bv8, (h & 0xFF) as bv8)
  }
}
