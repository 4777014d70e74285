/**
 * src/main.c: the demonstration loop of `app_main` that walks a red head
 * along the rows of the grid in alternating directions, erasing the previous
 * head with black on every step. Positions are C `int`s; the task delay is
 * not modelled.
 */
module Walker {
  import opened Machine
  import opened Colors
  import opened DisplayManager
  import NeopixelDriver

  /** The head's row and column and the column direction (`colDirection`). */
  datatype Head = Head(row: int, col: int, rightward: bool)

  /** The loop's five locals. */
  datatype Walker = Walker(head: Head, prevRow: int, prevCol: int)

  const START: Walker := Walker(Head(0, 0, true), 0, 0)

  /** The positions the loop keeps to: the column may sit one past the last. */
  predicate HeadValid(h: Head)
  {
    0 <= h.row < NUM_ROWS && 0 <= h.col <= NUM_COLS
  }

  predicate Valid(w: Walker)
  {
    HeadValid(w.head) && 0 <= w.prevRow < NUM_ROWS && 0 <= w.prevCol <= NUM_COLS
  }

  /** The head update of one iteration: move one column, turn at either edge
      onto the next row, and start over at the top left past the last row. */
  function Advance(h: Head): (h': Head)
    ensures HeadValid(h) ==> HeadValid(h')
    ensures HeadValid(h) && h.rightward && h.col + 1 < NUM_COLS ==> h' == Head(h.row, h.col + 1, true)
    ensures HeadValid(h) && !h.rightward && h.col >= 1 ==> h' == Head(h.row, h.col - 1, false)
    ensures HeadValid(h) && h.rightward && h.col + 1 >= NUM_COLS ==>
      h' == if h.row + 1 < NUM_ROWS then Head(h.row + 1, NUM_COLS, false) else Head(0, 0, true)
    ensures HeadValid(h) && !h.rightward && h.col == 0 ==>
      h' == if h.row + 1 < NUM_ROWS then Head(h.row + 1, 0, true) else Head(0, 0, true)
  {
    var col := h.col + (if h.rightward then 1 else -1);
    var (row, col, rightward) :=
      if col >= NUM_COLS then (h.row + 1, NUM_COLS as int, false) else (h.row, col, h.rightward);
    var (row, col, rightward) :=
      if col < 0 then (row + 1, 0, true) else (row, col, rightward);
    if row >= NUM_ROWS then Head(0, 0, true) else Head(row, col, rightward)
  }

  /** The two display calls of one iteration, with the `int` positions
      converted to the `uint32_t` parameters. */
  function Paint(w: Walker, palette: Palette): (calls: seq<PixelCall>)
    ensures |calls| == 2
    ensures Valid(w) ==>
      && calls[0] == PixelCall(w.head.row, w.head.col, palette.red)
      && calls[1] == PixelCall(w.prevRow, w.prevCol, palette.black)
  {
    [PixelCall(Wrap32(w.head.row), Wrap32(w.head.col), palette.red),
     PixelCall(Wrap32(w.prevRow), Wrap32(w.prevCol), palette.black)]
  }

  /** One iteration: paint, remember the head as the previous head, advance. */
  function Step(w: Walker, palette: Palette): (r: (seq<PixelCall>, Walker))
    ensures r.0 == Paint(w, palette)
    ensures r.1.prevRow == w.head.row && r.1.prevCol == w.head.col
    ensures r.1.head == Advance(w.head)
    ensures Valid(w) ==> Valid(r.1)
  {
    (Paint(w, palette), Walker(Advance(w.head), w.head.row, w.head.col))
  }

  /** When the head has been parked one past the last column, its red pixel
      is dropped: the strip index is negative and the frame is unchanged. */
  lemma ParkedHeadIsInvisible(f: seq<NeopixelDriver.Pixel>, w: Walker, palette: Palette)
    requires NeopixelDriver.IsFrame(f) && Valid(w) && w.head.col == NUM_COLS
    ensures DisplayManager.SetPixel(f, Paint(w, palette)[0]) == f
  {
  }

  /** The head after `k` iterations. */
  function Iterate(h: Head, k: nat): Head
    decreases k
  {
    if k == 0 then h else Iterate(Advance(h), k - 1)
  }

  lemma {:induction false} IterateAdd(h: Head, a: nat, b: nat)
    ensures Iterate(h, a + b) == Iterate(Iterate(h, a), b)
    decreases a
  {
    if a > 0 {
      IterateAdd(Advance(h), a - 1, b);
    }
  }

  lemma {:induction false} SweepRight(row: int, col: int, k: nat)
    requires 0 <= row < NUM_ROWS && 0 <= col && col + k < NUM_COLS
    ensures Iterate(Head(row, col, true), k) == Head(row, col + k, true)
    decreases k
  {
    if k > 0 {
      SweepRight(row, col + 1, k - 1);
    }
  }

  lemma {:induction false} SweepLeft(row: int, col: int, k: nat)
    requires 0 <= row < NUM_ROWS && k <= col <= NUM_COLS
    ensures Iterate(Head(row, col, false), k) == Head(row, col - k, false)
    decreases k
  {
    if k > 0 {
      SweepLeft(row, col - 1, k - 1);
    }
  }

  /** Thirty-two iterations run the head from the left end of a row to the
      right edge, where it turns onto the next row parked past the last column. */
  lemma {:induction false} SweepOut(row: int)
    requires 0 <= row && row + 1 < NUM_ROWS
    ensures Iterate(Head(row, 0, true), 32) == Head(row + 1, NUM_COLS, false)
  {
    var h1 := Head(row, 31, true);
    SweepRight(row, 0, 31);
    IterateOne(h1);
    IterateAdd(Head(row, 0, true), 31, 1);
  }

  /** Thirty-three iterations run the head back along a row and onto the left
      end of the row below, or to the top left past the last row. */
  lemma {:induction false} SweepBack(row: int)
    requires 0 <= row < NUM_ROWS
    ensures Iterate(Head(row, NUM_COLS, false), 33) ==
      if row + 1 < NUM_ROWS then Head(row + 1, 0, true) else Head(0, 0, true)
  {
    var h3 := Head(row, 0, false);
    SweepLeft(row, NUM_COLS, 32);
    IterateOne(h3);
    IterateAdd(Head(row, NUM_COLS, false), 32, 1);
  }

  /** Sixty-five iterations take the head from the left end of an even row,
      along it, back along the next row, to the left end of the row after. */
  lemma {:induction false} RowPair(row: int)
    requires 0 <= row < NUM_ROWS && row % 2 == 0
    ensures Iterate(Head(row, 0, true), 65) ==
      if row + 2 < NUM_ROWS then Head(row + 2, 0, true) else Head(0, 0, true)
  {
    SweepOut(row);
    SweepBack(row + 1);
    IterateAdd(Head(row, 0, true), 32, 33);
  }

  lemma IterateOne(h: Head)
    ensures Iterate(h, 1) == Advance(h)
  {
  }

  /** After `n` row pairs the head is at the left end of row 2n, heading
      right, or back at the top left after the fourth. */
  lemma {:induction false} RowPairs(n: nat)
    requires n <= 4
    ensures Iterate(START.head, 65 * n) == if n < 4 then Head(2 * n, 0, true) else START.head
  {
    if n > 0 {
      RowPairs(n - 1);
      IterateAdd(START.head, 65 * (n - 1), 65);
      RowPair(2 * (n - 1));
    }
  }

  /** The walk is periodic: after 260 iterations the head is back at the
      top left, heading right. */
  lemma WalkPeriod()
    ensures Iterate(START.head, 260) == START.head
  {
    RowPairs(4);
  }
}
