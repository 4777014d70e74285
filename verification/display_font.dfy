/**
 * `font_drawChar` of src/fonts.c: draws a 3x5 glyph straight onto the display,
 * one `display_manager_setPixel` per set bit. Clear bits are not painted and the
 * coordinates are not bounds-checked. Bit `col` of a row lands in display column
 * x + 2 - col, so bit 2 is the leftmost column.
 */
module DisplayFont {
  import opened Machine
  import FontTable
  import DisplayManager

  /** Bit `k` (0..2) of glyph row `row` is set. */
  predicate Lit(bitmap: seq<Byte>, row: int, k: int)
    requires |bitmap| == FontTable.FONT_HEIGHT
  {
    0 <= row < FontTable.FONT_HEIGHT && 0 <= k < FontTable.FONT_WIDTH && BitSet(bitmap[row], k)
  }

  /** Number of set bits among bits 0..n-1 of a row. */
  function RowBits(line: Byte, n: nat): (k: nat)
    requires n <= FontTable.FONT_WIDTH
    ensures k <= n
  {
    if n == 0 then 0 else RowBits(line, n - 1) + (if BitSet(line, n - 1) then 1 else 0)
  }

  /** Number of set low-3 bits in the first `rows` rows. */
  function GlyphBits(bitmap: seq<Byte>, rows: nat): (k: nat)
    requires rows <= |bitmap| && rows <= FontTable.FONT_HEIGHT
    ensures k <= rows * FontTable.FONT_WIDTH
  {
    if rows == 0 then 0 else GlyphBits(bitmap, rows - 1) + RowBits(bitmap[rows - 1], FontTable.FONT_WIDTH)
  }

  /** Calls are ordered by row, then by decreasing column; hence all distinct. */
  predicate Before(a: DisplayManager.PixelCall, b: DisplayManager.PixelCall)
  {
    a.row < b.row || (a.row == b.row && a.col > b.col)
  }

  /** Display column `col` shows a set bit of a row drawn with its left edge at `x`. */
  predicate ShowsBit(line: Byte, x: int, col: int)
  {
    x <= col <= x + 2 && BitSet(line, x + 2 - col)
  }

  /** The inner loop's invariant after bits 0..n-1 of a row: the count, where
      each call lands (left of every bit still to come), every set bit covered,
      and the columns strictly decreasing. */
  ghost predicate RowSoFar(calls: seq<DisplayManager.PixelCall>, x: Byte, rowY: Word, line: Byte, color: Word, n: nat)
    requires n <= FontTable.FONT_WIDTH
  {
    && |calls| == RowBits(line, n)
    && (forall i :: 0 <= i < |calls| ==>
          calls[i].color == color && calls[i].row == rowY && ShowsBit(line, x, calls[i].col)
          && calls[i].col > x + 2 - n)
    && (forall k :: 0 <= k < n && BitSet(line, k) ==>
          DisplayManager.PixelCall(rowY, x + 2 - k, color) in calls)
    && (forall i, j :: 0 <= i < j < |calls| ==> calls[i].col > calls[j].col)
  }

  /** One more bit: a call for it is appended exactly when it is set. */
  lemma RowSoFarNext(calls: seq<DisplayManager.PixelCall>, x: Byte, rowY: Word, line: Byte, color: Word, n: nat)
    requires n < FontTable.FONT_WIDTH && RowSoFar(calls, x, rowY, line, color, n)
    ensures BitSet(line, n) ==>
      RowSoFar(calls + [DisplayManager.PixelCall(rowY, x + (FontTable.FONT_WIDTH - n - 1), color)], x, rowY, line, color, n + 1)
    ensures !BitSet(line, n) ==> RowSoFar(calls, x, rowY, line, color, n + 1)
  {
  }

  /** The inner loop of `font_drawChar` for one glyph row drawn at display row `rowY`. */
  method DrawRow(x: Byte, rowY: Word, line: Byte, color: Word) returns (calls: seq<DisplayManager.PixelCall>)
    ensures |calls| == RowBits(line, FontTable.FONT_WIDTH)
    ensures forall i :: 0 <= i < |calls| ==>
      calls[i].color == color && calls[i].row == rowY && ShowsBit(line, x, calls[i].col)
    ensures forall k :: 0 <= k < FontTable.FONT_WIDTH && BitSet(line, k) ==>
      DisplayManager.PixelCall(rowY, x + 2 - k, color) in calls
    ensures forall i, j :: 0 <= i < j < |calls| ==> calls[i].col > calls[j].col
  {
    calls := [];
    var col := 0;
    while col < FontTable.FONT_WIDTH
      invariant 0 <= col <= FontTable.FONT_WIDTH
      invariant RowSoFar(calls, x, rowY, line, color, col)
    {
      RowSoFarNext(calls, x, rowY, line, color, col);
      if BitSet(line, col) {
        calls := calls + [DisplayManager.PixelCall(rowY, x + (FontTable.FONT_WIDTH - col - 1), color)];
      }
      col := col + 1;
    }
  }

  /** The outer loop's invariant after `rows` glyph rows: the count, where each
      call lands, every set bit covered, and the calls in `Before` order. */
  ghost predicate Drawn(calls: seq<DisplayManager.PixelCall>, bitmap: seq<Byte>, x: Byte, y: Byte, color: Word, rows: nat)
    requires |bitmap| == FontTable.FONT_HEIGHT && rows <= FontTable.FONT_HEIGHT
  {
    && |calls| == GlyphBits(bitmap, rows)
    && (forall i :: 0 <= i < |calls| ==>
          && calls[i].color == color
          && y <= calls[i].row < y + rows
          && ShowsBit(bitmap[calls[i].row - y], x, calls[i].col))
    && (forall r, k :: r < rows && Lit(bitmap, r, k) ==>
          DisplayManager.PixelCall(y + r, x + 2 - k, color) in calls)
    && (forall i, j :: 0 <= i < j < |calls| ==> Before(calls[i], calls[j]))
  }

  /** Appending the calls of glyph row `row` extends the invariant by one row. */
  lemma DrawnExtend(calls: seq<DisplayManager.PixelCall>, rowCalls: seq<DisplayManager.PixelCall>,
                    bitmap: seq<Byte>, x: Byte, y: Byte, color: Word, row: nat)
    requires |bitmap| == FontTable.FONT_HEIGHT && row < FontTable.FONT_HEIGHT
    requires Drawn(calls, bitmap, x, y, color, row)
    requires |rowCalls| == RowBits(bitmap[row], FontTable.FONT_WIDTH)
    requires forall i :: 0 <= i < |rowCalls| ==>
      rowCalls[i].color == color && rowCalls[i].row == y + row && ShowsBit(bitmap[row], x, rowCalls[i].col)
    requires forall k :: 0 <= k < FontTable.FONT_WIDTH && BitSet(bitmap[row], k) ==>
      DisplayManager.PixelCall(y + row, x + 2 - k, color) in rowCalls
    requires forall i, j :: 0 <= i < j < |rowCalls| ==> rowCalls[i].col > rowCalls[j].col
    ensures Drawn(calls + rowCalls, bitmap, x, y, color, row + 1)
  {
    var all := calls + rowCalls;
    forall r, k | r < row + 1 && Lit(bitmap, r, k)
      ensures DisplayManager.PixelCall(y + r, x + 2 - k, color) in all
    {
      if r < row {
        assert DisplayManager.PixelCall(y + r, x + 2 - k, color) in calls;
      } else {
        assert DisplayManager.PixelCall(y + r, x + 2 - k, color) in rowCalls;
      }
    }
    forall i, j | 0 <= i < j < |all|
      ensures Before(all[i], all[j])
    {
      if j >= |calls| && i < |calls| {
        assert all[i].row < y + row;
      }
    }
  }

  method DrawChar(x: Byte, y: Byte, c: char, size: int, color: Word, table: seq<Byte>)
    returns (calls: seq<DisplayManager.PixelCall>)
    requires |table| >= FontTable.MIN_TABLE_LENGTH
    ensures var bitmap := FontTable.GetChar(table, c, size).bitmap;
      && |calls| == GlyphBits(bitmap, FontTable.FONT_HEIGHT)
      && (forall i :: 0 <= i < |calls| ==>
            && calls[i].color == color
            && y <= calls[i].row < y + FontTable.FONT_HEIGHT
            && ShowsBit(bitmap[calls[i].row - y], x, calls[i].col))
      && (forall row, k :: Lit(bitmap, row, k) ==>
            DisplayManager.PixelCall(y + row, x + 2 - k, color) in calls)
    ensures forall i, j :: 0 <= i < j < |calls| ==> calls[i] != calls[j]
  {
    var g := FontTable.GetChar(table, c, size);
    calls := [];
    var row := 0;
    while row < g.height
      invariant 0 <= row <= g.height
      invariant Drawn(calls, g.bitmap, x, y, color, row)
    {
      var rowCalls := DrawRow(x, y + row, g.bitmap[row], color);
      DrawnExtend(calls, rowCalls, g.bitmap, x, y, color, row);
      calls := calls + rowCalls;
      row := row + 1;
    }
    assert forall i, j :: 0 <= i < j < |calls| ==> Before(calls[i], calls[j]);
  }
}
