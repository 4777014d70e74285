/**
 * The third `font_getChar`, defined in src/graphics.c. For the 5x3 size and a
 * decimal digit it writes ONE byte, the table byte at the digit's ordinal (not
 * scaled by the glyph height), plus the width and height; for a non-digit it
 * writes nothing; for any other size it zeroes the width and height only.
 */
module LegacyFont {
  import opened Machine
  import FontTable

  /** The table must reach the byte of '9'. */
  const MIN_TABLE_LENGTH: nat := 10

  /** The three locations the routine may write: `*bitmap`, `*width`, `*height`. */
  datatype Outputs = Outputs(bitmap: Byte, width: Byte, height: Byte)

  function GetChar(table: seq<Byte>, c: char, size: int, prior: Outputs): (out: Outputs)
    requires |table| >= MIN_TABLE_LENGTH
    ensures size == FontTable.FONT_SIZE_5x3 && '0' <= c <= '9' ==>
      out == Outputs(table[c as int - '0' as int], FontTable.FONT_WIDTH, FontTable.FONT_HEIGHT)
    ensures size == FontTable.FONT_SIZE_5x3 && !('0' <= c <= '9') ==> out == prior
    ensures size != FontTable.FONT_SIZE_5x3 ==> out == prior.(width := 0, height := 0)
  {
    if size == FontTable.FONT_SIZE_5x3 then
      if c >= '0' && c <= '9' then
        Outputs(table[c as int - '0' as int], FontTable.FONT_WIDTH as Byte, FontTable.FONT_HEIGHT as Byte)
      else prior
    else prior.(width := 0, height := 0)
  }

  /** Unlike the shared `font_getChar`, the byte read sits at the digit's
      ordinal, so only '0' gets the first row of its own glyph; '1'..'8' read
      a byte inside the glyph of '0' or '1'. */
  lemma ReadsDigitOrdinal(table: seq<Byte>, c: char, prior: Outputs)
    requires |table| >= FontTable.MIN_TABLE_LENGTH
    requires '0' <= c <= '8'
    ensures GetChar(table, c, FontTable.FONT_SIZE_5x3, prior).bitmap
         == table[FontTable.GlyphStart(c) / FontTable.FONT_HEIGHT]
    ensures c == '0' ==>
      GetChar(table, c, FontTable.FONT_SIZE_5x3, prior).bitmap
         == FontTable.GetChar(table, c, FontTable.FONT_SIZE_5x3).bitmap[0]
  {
  }
}
