/**
 * src/display_manager.c: the logical 8x32 grid, its serpentine mapping onto the
 * 256-pixel strip for the one wired rotation (DISPLAY_ROTATION_270), and the
 * brightness guard in front of the driver.
 */
module DisplayManager {
  import opened Machine
  import NeopixelDriver

  const NUM_ROWS: nat := 8
  const NUM_COLS: nat := 32

  /** One `display_manager_setPixel(row, col, color)` call. */
  datatype PixelCall = PixelCall(row: Word, col: Word, color: Word)

  predicate InGrid(row: int, col: int)
  {
    0 <= row < NUM_ROWS && 0 <= col < NUM_COLS
  }

  /** The index formula of the rotation-270 branch, evaluated in `uint32_t`
      arithmetic exactly as written, for any row and column. */
  function RawIndex(row: Word, col: Word): Word
  {
    if col % 2 == 0 then Wrap32((NUM_COLS - 1 - col) * NUM_ROWS + row)
    else Wrap32((NUM_COLS - 1 - col) * NUM_ROWS + Wrap32(NUM_ROWS - 1 - row))
  }

  /** The strip index the driver receives: `pixelIndex` passed as an `int`. */
  function StripIndex(row: Word, col: Word): int
  {
    ToInt32(RawIndex(row, col))
  }

  /** The serpentine layout on the grid: columns are 8-pixel blocks counted from
      the right, even columns run top to bottom and odd columns bottom to top. */
  function Serpentine(row: nat, col: nat): (i: nat)
    requires InGrid(row, col)
    ensures i < NeopixelDriver.NUM_LEDS
    ensures col % 2 == 0 ==> i == (31 - col) * 8 + row
    ensures col % 2 == 1 ==> i == (31 - col) * 8 + 7 - row
    ensures i / 8 == 31 - col
  {
    var block := (NUM_COLS - 1 - col) * NUM_ROWS;
    if col % 2 == 0 then block + row else block + (NUM_ROWS - 1 - row)
  }

  /** On the grid the uint32 formula is the serpentine layout and is in range. */
  lemma StripIndexOnGrid(row: Word, col: Word)
    requires InGrid(row, col)
    ensures StripIndex(row, col) == Serpentine(row, col)
    ensures 0 <= StripIndex(row, col) < NeopixelDriver.NUM_LEDS
  {
  }

  /** The comment's anchor points: (0, 0) is 248 and (7, 31) is 0. */
  lemma Corners()
    ensures StripIndex(0, 0) == 248
    ensures StripIndex(7, 31) == 0
  {
  }

  /** The inverse layout: which grid cell drives strip position i. */
  function CellOf(i: nat): (rc: (nat, nat))
    requires i < NeopixelDriver.NUM_LEDS
    ensures InGrid(rc.0, rc.1)
    ensures Serpentine(rc.0, rc.1) == i
  {
    var col := NUM_COLS - 1 - i / NUM_ROWS;
    var row := if col % 2 == 0 then i % NUM_ROWS else NUM_ROWS - 1 - i % NUM_ROWS;
    (row, col)
  }

  /** No two grid cells share a strip pixel. */
  lemma {:induction false} SerpentineInjective(r1: nat, c1: nat, r2: nat, c2: nat)
    requires InGrid(r1, c1) && InGrid(r2, c2)
    requires Serpentine(r1, c1) == Serpentine(r2, c2)
    ensures r1 == r2 && c1 == c2
  {
    assert c1 == c2;
  }

  /** Together with CellOf, a bijection between the grid and 0..255. */
  lemma SerpentineBijection(row: nat, col: nat, i: nat)
    requires InGrid(row, col) && i < NeopixelDriver.NUM_LEDS
    ensures CellOf(Serpentine(row, col)) == (row, col)
    ensures Serpentine(CellOf(i).0, CellOf(i).1) == i
  {
    var rc := CellOf(Serpentine(row, col));
    SerpentineInjective(rc.0, rc.1, row, col);
  }

  /** Columns past the right edge give a negative `int`, which the driver drops. */
  lemma PastRightEdgeIsNegative(row: Word, col: Word)
    requires row < NUM_ROWS && NUM_COLS <= col < 0x1000_0000
    ensures StripIndex(row, col) < 0
  {
  }

  /** Far enough past the right edge the `uint32_t` product wraps back onto
      the strip: column 0x2000_001F drives the pixel of column 31. */
  lemma HugeColumnWrapsOntoGrid()
    ensures StripIndex(0, 0x2000_001F) == Serpentine(0, 31) == 7
  {
  }

  /** Rows past the bottom are not rejected: (8, 1) lands on the pixel of (7, 2). */
  lemma RowEightAliases()
    ensures StripIndex(8, 1) == StripIndex(7, 2) == Serpentine(7, 2)
  {
  }

  /** `display_manager_setPixel`: one driver write at the mapped index. */
  function SetPixel(f: seq<NeopixelDriver.Pixel>, c: PixelCall): (f': seq<NeopixelDriver.Pixel>)
    requires NeopixelDriver.IsFrame(f)
    ensures NeopixelDriver.IsFrame(f')
    ensures InGrid(c.row, c.col) ==>
      && f'[Serpentine(c.row, c.col)] == NeopixelDriver.Pixel(Serpentine(c.row, c.col), c.color)
      && forall j :: 0 <= j < NeopixelDriver.NUM_LEDS && j != Serpentine(c.row, c.col) ==> f'[j] == f[j]
    ensures c.row < NUM_ROWS && NUM_COLS <= c.col < 0x1000_0000 ==> f' == f
  {
    NeopixelDriver.SetPixel(f, StripIndex(c.row, c.col), c.color)
  }

  /** A log of calls applied to the frame in order. */
  function Render(f: seq<NeopixelDriver.Pixel>, calls: seq<PixelCall>): (f': seq<NeopixelDriver.Pixel>)
    requires NeopixelDriver.IsFrame(f)
    ensures NeopixelDriver.IsFrame(f')
    decreases |calls|
  {
    if |calls| == 0 then f else Render(SetPixel(f, calls[0]), calls[1..])
  }

  /** A strip pixel that no call of the log can reach keeps its value. */
  lemma {:induction false} RenderLeavesOthers(f: seq<NeopixelDriver.Pixel>, calls: seq<PixelCall>, j: nat)
    requires NeopixelDriver.IsFrame(f) && j < NeopixelDriver.NUM_LEDS
    requires forall k :: 0 <= k < |calls| ==> StripIndex(calls[k].row, calls[k].col) != j
    ensures Render(f, calls)[j] == f[j]
    decreases |calls|
  {
    if |calls| > 0 {
      RenderLeavesOthers(SetPixel(f, calls[0]), calls[1..], j);
    }
  }

  /** The last call that reaches a grid cell decides its colour. */
  lemma {:induction false} RenderLastWriteWins(f: seq<NeopixelDriver.Pixel>, calls: seq<PixelCall>, k: nat)
    requires NeopixelDriver.IsFrame(f) && k < |calls|
    requires InGrid(calls[k].row, calls[k].col)
    requires forall m :: k < m < |calls| ==>
      StripIndex(calls[m].row, calls[m].col) != StripIndex(calls[k].row, calls[k].col)
    ensures Render(f, calls)[Serpentine(calls[k].row, calls[k].col)].rgb == calls[k].color
    decreases |calls|
  {
    var i := Serpentine(calls[k].row, calls[k].col);
    StripIndexOnGrid(calls[k].row, calls[k].col);
    if k == 0 {
      var g := SetPixel(f, calls[0]);
      assert g[i].rgb == calls[0].color;
      RenderLeavesOthers(g, calls[1..], i);
    } else {
      RenderLastWriteWins(SetPixel(f, calls[0]), calls[1..], k - 1);
    }
  }

  /** `display_manager_setBrightness`: the same [0, 1] guard, then the driver's setter. */
  function SetBrightness(current: real, b: real): (r: real)
    ensures r == NeopixelDriver.SetBrightness(current, b)
    ensures !(0.0 <= b <= 1.0) ==> r == current
  {
    if b < 0.0 || b > 1.0 then current else NeopixelDriver.SetBrightness(current, b)
  }
}
