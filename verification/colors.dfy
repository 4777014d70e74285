/**
 * The named colours the firmware draws with. Their values live in a header
 * that is not part of this model, so every operation that draws a named
 * colour takes the palette as a parameter.
 */
module Colors {
  import opened Machine

  datatype Palette = Palette(red: Word, green: Word, yellow: Word, black: Word)
}
