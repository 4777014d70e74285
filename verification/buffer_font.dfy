/**
 * `font_drawChar` of src/utils/fonts.c: draws a 3x5 glyph into an application
 * drawing buffer through `display_manager_setBufferPixel`, repainting the whole
 * footprint (set bits in the colour, clear bits in 0). The buffer type and its
 * pixel setter are not part of this model: a buffer is its size and active
 * flag, and the drawing is the log of setter calls.
 */
module BufferFont {
  import opened Machine
  import opened Wrappers
  import FontTable
  import DisplayFont

  /** The parts of `displayManager_buffer_t` the routine reads. */
  datatype Surface = Surface(width: nat, height: nat, active: bool)

  /** One `display_manager_setBufferPixel(buffer, x, y, color)` call. */
  datatype BufferWrite = BufferWrite(x: nat, y: nat, color: Word)

  /** The glyph footprint [x, x+3) x [y, y+5) lies inside the buffer. */
  predicate Fits(s: Surface, x: Byte, y: Byte)
  {
    x + FontTable.FONT_WIDTH <= s.width && y + FontTable.FONT_HEIGHT <= s.height
  }

  /** The colour a footprint cell receives: the colour where the glyph bit is
      set, scanning the three low bits most significant first, and 0 elsewhere. */
  function CellColor(line: Byte, col: nat, color: Word): Word
    requires col < FontTable.FONT_WIDTH
  {
    if BitSet(line, FontTable.FONT_WIDTH - 1 - col) then color else 0
  }

  method DrawChar(buffer: Option<Surface>, x: Byte, y: Byte, c: char, size: int, color: Word, table: seq<Byte>)
    returns (writes: seq<BufferWrite>)
    requires |table| >= FontTable.MIN_TABLE_LENGTH
    ensures (buffer.None? || !buffer.value.active) ==> writes == []
    ensures buffer.Some? && buffer.value.active && !Fits(buffer.value, x, y) ==> writes == []
    ensures buffer.Some? && buffer.value.active && Fits(buffer.value, x, y) ==>
      && |writes| == FontTable.FONT_WIDTH * FontTable.FONT_HEIGHT
      && forall i :: 0 <= i < |writes| ==>
        writes[i] == BufferWrite(x + i % 3, y + i / 3,
                                 CellColor(table[FontTable.GlyphStart(c) + i / 3], i % 3, color))
    ensures forall i :: 0 <= i < |writes| ==>
      writes[i].x < buffer.value.width && writes[i].y < buffer.value.height
    ensures forall i, j :: 0 <= i < j < |writes| ==>
      (writes[i].x, writes[i].y) != (writes[j].x, writes[j].y)
  {
    writes := [];
    if buffer.None? || !buffer.value.active {
      return;
    }
    var g := FontTable.GetChar(table, c, size);
    if x + g.width > buffer.value.width || y + g.height > buffer.value.height {
      return;
    }
    var row := 0;
    while row < g.height
      invariant 0 <= row <= g.height
      invariant |writes| == row * 3
      invariant forall i :: 0 <= i < |writes| ==>
        writes[i] == BufferWrite(x + i % 3, y + i / 3, CellColor(g.bitmap[i / 3], i % 3, color))
    {
      var line := g.bitmap[row];
      var col := 0;
      while col < g.width
        invariant 0 <= col <= g.width
        invariant |writes| == row * 3 + col
        invariant forall i :: 0 <= i < |writes| ==>
          writes[i] == BufferWrite(x + i % 3, y + i / 3, CellColor(g.bitmap[i / 3], i % 3, color))
      {
        if BitSet(line, g.width - 1 - col) {
          writes := writes + [BufferWrite(x + col, y + row, color)];
        } else {
          writes := writes + [BufferWrite(x + col, y + row, 0)];
        }
        col := col + 1;
      }
      row := row + 1;
    }
  }

  /** The cells this routine paints in a non-zero colour are exactly the cells
      the display-based `font_drawChar` of src/fonts.c paints for the same row
      byte: both put bit 2 - k at column x + k. */
  lemma SameLitCells(line: Byte, x: int, col: nat, color: Word)
    requires col < FontTable.FONT_WIDTH && color != 0
    ensures CellColor(line, col, color) == color <==> DisplayFont.ShowsBit(line, x, x + col)
  {
  }
}
