/**
 * src/utils/graphics.c: rectangle and Bresenham line drawn through
 * `display_manager_setPixel`, and character drawing delegated to the
 * display-based `font_drawChar`. Each primitive yields its log of calls;
 * x is the display column and y the display row throughout.
 */
module Graphics {
  import opened Machine
  import FontTable
  import DisplayFont
  import DisplayManager

  type Call = DisplayManager.PixelCall

  /** Row-major order: by row, then by column. */
  predicate RowMajor(a: Call, b: Call)
  {
    a.row < b.row || (a.row == b.row && a.col < b.col)
  }

  /** The inner loop of `graphics_drawRectangle` for one display row. */
  method RectangleRow(x: Byte, rowY: Word, width: Byte, color: Word) returns (calls: seq<Call>)
    ensures |calls| == width
    ensures forall i :: 0 <= i < |calls| ==> calls[i] == DisplayManager.PixelCall(rowY, x + i, color)
  {
    calls := [];
    var col := 0;
    while col < width
      invariant 0 <= col <= width
      invariant |calls| == col
      invariant forall i :: 0 <= i < |calls| ==> calls[i] == DisplayManager.PixelCall(rowY, x + i, color)
    {
      calls := calls + [DisplayManager.PixelCall(rowY, x + col, color)];
      col := col + 1;
    }
  }

  /** The outer loop's invariant after `rows` rows of the rectangle. */
  ghost predicate RectDrawn(calls: seq<Call>, x: Byte, y: Byte, width: Byte, color: Word, rows: nat)
    requires rows <= BYTE_LIMIT
  {
    && |calls| == rows * width
    && (forall i :: 0 <= i < |calls| ==>
          && calls[i].color == color
          && y <= calls[i].row < y + rows
          && x <= calls[i].col < x + width)
    && (forall r: int, c: int :: y <= r < y + rows && x <= c < x + width ==>
          DisplayManager.PixelCall(r, c, color) in calls)
    && (forall i, j :: 0 <= i < j < |calls| ==> RowMajor(calls[i], calls[j]))
  }

  /** Appending one row of the rectangle extends the invariant by that row. */
  lemma RectExtend(calls: seq<Call>, line: seq<Call>, x: Byte, y: Byte, width: Byte, color: Word, rows: nat)
    requires rows < BYTE_LIMIT && RectDrawn(calls, x, y, width, color, rows)
    requires |line| == width
    requires forall i :: 0 <= i < |line| ==> line[i] == DisplayManager.PixelCall(y + rows, x + i, color)
    ensures RectDrawn(calls + line, x, y, width, color, rows + 1)
  {
    var all := calls + line;
    forall r: int, c: int | y <= r < y + rows + 1 && x <= c < x + width
      ensures DisplayManager.PixelCall(r, c, color) in all
    {
      if r < y + rows {
        assert DisplayManager.PixelCall(r, c, color) in calls;
      } else {
        assert line[c - x] == DisplayManager.PixelCall(r, c, color);
      }
    }
  }

  /** `graphics_drawRectangle`: exactly the cells of [y, y+height) x [x, x+width),
      each once, in the colour; nothing when either dimension is 0. */
  method DrawRectangle(x: Byte, y: Byte, width: Byte, height: Byte, color: Word) returns (calls: seq<Call>)
    ensures |calls| == width * height
    ensures forall i :: 0 <= i < |calls| ==>
      && calls[i].color == color
      && y <= calls[i].row < y + height
      && x <= calls[i].col < x + width
    ensures forall row: int, col: int :: y <= row < y + height && x <= col < x + width ==>
      DisplayManager.PixelCall(row, col, color) in calls
    ensures forall i, j :: 0 <= i < j < |calls| ==> RowMajor(calls[i], calls[j])
  {
    calls := [];
    var row := 0;
    while row < height
      invariant 0 <= row <= height
      invariant RectDrawn(calls, x, y, width, color, row)
    {
      var line := RectangleRow(x, y + row, width, color);
      RectExtend(calls, line, x, y, width, color, row);
      calls := calls + line;
      row := row + 1;
    }
  }

  /** No two calls of a row-major log coincide. */
  lemma RowMajorDistinct(calls: seq<Call>)
    requires forall i, j :: 0 <= i < j < |calls| ==> RowMajor(calls[i], calls[j])
    ensures forall i, j :: 0 <= i < j < |calls| ==> calls[i] != calls[j]
  {
  }

  /** `graphics_drawChar`: the same log as the display-based `font_drawChar`. */
  method DrawChar(x: Byte, y: Byte, c: char, size: int, color: Word, table: seq<Byte>)
    returns (calls: seq<Call>)
    requires |table| >= FontTable.MIN_TABLE_LENGTH
    ensures var bitmap := FontTable.GetChar(table, c, size).bitmap;
      && (forall i :: 0 <= i < |calls| ==>
            && calls[i].color == color
            && y <= calls[i].row < y + FontTable.FONT_HEIGHT
            && DisplayFont.ShowsBit(bitmap[calls[i].row - y], x, calls[i].col))
      && |calls| == DisplayFont.GlyphBits(bitmap, FontTable.FONT_HEIGHT)
      && (forall row, k :: DisplayFont.Lit(bitmap, row, k) ==>
            DisplayManager.PixelCall(y + row, x + 2 - k, color) in calls)
    ensures forall i, j :: 0 <= i < j < |calls| ==> calls[i] != calls[j]
  {
    calls := DisplayFont.DrawChar(x, y, c, size, color, table);
  }

  // ---------------------------------------------------------------------------
  // Bresenham line

  function Abs(v: int): nat { if v < 0 then -v else v }

  /** Two consecutive plots: distinct cells, at most one step apart on each axis. */
  predicate Adjacent(a: Call, b: Call)
  {
    a != b && Abs(a.row - b.row) <= 1 && Abs(a.col - b.col) <= 1
  }

  /** Inside the bounding box of the two endpoints. */
  predicate InBox(p: Call, x1: int, y1: int, x2: int, y2: int)
  {
    && (if x1 <= x2 then x1 <= p.col <= x2 else x2 <= p.col <= x1)
    && (if y1 <= y2 then y1 <= p.row <= y2 else y2 <= p.row <= y1)
  }

  /** `b` is no farther from the end point than `a` on either axis. */
  predicate Approaches(a: Call, b: Call, x2: int, y2: int)
  {
    Abs(b.col - x2) <= Abs(a.col - x2) && Abs(b.row - y2) <= Abs(a.row - y2)
  }

  /** Bresenham's error term after cx steps along x and cy steps along y. */
  predicate ErrorTerm(err: int, dx: int, dy: int, cx: int, cy: int)
  {
    err == dx * (cy + 1) - dy * (cx + 1)
  }

  /** One iteration of the loop, away from the end point: it steps along x only
      while x is short of its target, along y only while y is, and on at least
      one axis; the error term keeps its meaning. */
  lemma StepFacts(err: int, dx: int, dy: int, cx: int, cy: int)
    requires 0 <= cx <= dx && 0 <= cy <= dy && (cx < dx || cy < dy)
    requires ErrorTerm(err, dx, dy, cx, cy)
    ensures 2 * err > -dy ==> cx < dx
    ensures 2 * err < dx ==> cy < dy
    ensures 2 * err > -dy || 2 * err < dx
    ensures ErrorTerm(err - dy, dx, dy, cx + 1, cy)
    ensures ErrorTerm(err + dx, dx, dy, cx, cy + 1)
    ensures ErrorTerm(err - dy + dx, dx, dy, cx + 1, cy + 1)
  {
    MulSucc(dy, cx + 1);
    MulSucc(dx, cy + 1);
    if cx == dx {
      MulMono(dx, cy + 1, dy);
      assert dx * dy == dy * dx;
      assert err <= -dy;
    }
    if cy == dy {
      MulMono(dy, cx + 1, dx);
      assert dx * dy == dy * dx;
      assert err >= dx;
    }
  }

  lemma MulSucc(a: int, b: int)
    ensures a * (b + 1) == a * b + a
  {
  }

  lemma MulMono(a: nat, b: nat, c: nat)
    requires b <= c
    ensures a * b <= a * c
  {
  }

  /** Position after k unit steps from a toward b. */
  function Along(a: int, b: int, k: nat): int
  {
    if a < b then a + k else a - k
  }

  /** The cell reached after cx steps along x and cy steps along y. */
  function Reached(x1: Byte, y1: Byte, x2: Byte, y2: Byte, cx: nat, cy: nat, color: Word): (p: Call)
    requires cx <= Abs(x2 - x1) && cy <= Abs(y2 - y1)
    ensures InBox(p, x1, y1, x2, y2) && p.color == color
    ensures p == DisplayManager.PixelCall(y2, x2, color) <==> cx == Abs(x2 - x1) && cy == Abs(y2 - y1)
  {
    DisplayManager.PixelCall(Along(y1, y2, cy), Along(x1, x2, cx), color)
  }

  /** Moving on by at most one step per axis, and by at least one in all, plots
      an adjacent cell that is no farther from the end point. */
  lemma ReachedNext(x1: Byte, y1: Byte, x2: Byte, y2: Byte, cx: nat, cy: nat, cx': nat, cy': nat, color: Word)
    requires cx' <= Abs(x2 - x1) && cy' <= Abs(y2 - y1)
    requires cx <= cx' <= cx + 1 && cy <= cy' <= cy + 1 && cx + cy < cx' + cy'
    ensures Adjacent(Reached(x1, y1, x2, y2, cx, cy, color), Reached(x1, y1, x2, y2, cx', cy', color))
    ensures Approaches(Reached(x1, y1, x2, y2, cx, cy, color), Reached(x1, y1, x2, y2, cx', cy', color), x2, y2)
  {
  }

  /** The plots so far: they start at (x1, y1), none is the end point, all lie
      in the box, and each is adjacent to and no farther than its predecessor. */
  predicate Trail(calls: seq<Call>, x1: Byte, y1: Byte, x2: Byte, y2: Byte, color: Word)
  {
    && (|calls| > 0 ==> calls[0] == DisplayManager.PixelCall(y1, x1, color))
    && (forall i :: 0 <= i < |calls| ==> calls[i] != DisplayManager.PixelCall(y2, x2, color))
    && (forall i :: 0 <= i < |calls| ==> calls[i].color == color && InBox(calls[i], x1, y1, x2, y2))
    && (forall i :: 0 < i < |calls| ==>
          Adjacent(calls[i - 1], calls[i]) && Approaches(calls[i - 1], calls[i], x2, y2))
  }

  /** The trail extended by a plot that continues it. */
  lemma TrailExtend(calls: seq<Call>, p: Call, x1: Byte, y1: Byte, x2: Byte, y2: Byte, color: Word)
    requires Trail(calls, x1, y1, x2, y2, color)
    requires |calls| == 0 ==> p == DisplayManager.PixelCall(y1, x1, color)
    requires |calls| > 0 ==> Adjacent(calls[|calls| - 1], p) && Approaches(calls[|calls| - 1], p, x2, y2)
    requires p.color == color && InBox(p, x1, y1, x2, y2)
    requires p != DisplayManager.PixelCall(y2, x2, color)
    ensures Trail(calls + [p], x1, y1, x2, y2, color)
  {
  }

  /** Unit step of the loop along one axis. */
  function Unit(a: int, b: int): int
  {
    if a < b then 1 else -1
  }

  /** The loop state before an iteration: `cx` and `cy` count the steps taken
      on each axis, (x, y) is the cell they reach, `err` is the error term for
      them, and `calls` is the trail plotted so far, whose last cell is
      adjacent to (x, y). */
  ghost predicate LineState(calls: seq<Call>, x: int, y: int, err: int, cx: nat, cy: nat,
                            x1: Byte, y1: Byte, x2: Byte, y2: Byte, color: Word)
  {
    && cx <= Abs(x2 - x1) && cy <= Abs(y2 - y1)
    && x == Along(x1, x2, cx) && y == Along(y1, y2, cy)
    && ErrorTerm(err, Abs(x2 - x1), Abs(y2 - y1), cx, cy)
    && (|calls| == 0 ==> cx + cy == 0)
    && cx <= |calls| && cy <= |calls| && |calls| <= cx + cy
    && Trail(calls, x1, y1, x2, y2, color)
    && (|calls| > 0 ==>
          && Adjacent(calls[|calls| - 1], Reached(x1, y1, x2, y2, cx, cy, color))
          && Approaches(calls[|calls| - 1], Reached(x1, y1, x2, y2, cx, cy, color), x2, y2))
  }

  /** The counters, position and error term after one iteration away from
      the end point: at least one axis advances and none overshoots. */
  lemma StepCounters(x: int, y: int, err: int, cx: nat, cy: nat, x1: Byte, y1: Byte, x2: Byte, y2: Byte,
                     dx: int, dy: int, err': int, x': int, y': int, cx': nat, cy': nat)
    requires dx == Abs(x2 - x1) && dy == Abs(y2 - y1) && cx <= dx && cy <= dy
    requires x == Along(x1, x2, cx) && y == Along(y1, y2, cy) && ErrorTerm(err, dx, dy, cx, cy)
    requires !(x == x2 && y == y2)
    requires cx' == (if err * 2 > -dy then cx + 1 else cx)
    requires x' == (if err * 2 > -dy then x + Unit(x1, x2) else x)
    requires cy' == (if err * 2 < dx then cy + 1 else cy)
    requires y' == (if err * 2 < dx then y + Unit(y1, y2) else y)
    requires err' == err - (if err * 2 > -dy then dy else 0) + (if err * 2 < dx then dx else 0)
    ensures cx' <= dx && cy' <= dy && cx + cy < cx' + cy'
    ensures x' == Along(x1, x2, cx') && y' == Along(y1, y2, cy')
    ensures ErrorTerm(err', dx, dy, cx', cy')
  {
    assert cx < dx || cy < dy;
    StepFacts(err, dx, dy, cx, cy);
  }

  /** One iteration away from the end point plots (x, y) and moves on to a
      state that again satisfies `LineState`, with fewer steps left. */
  lemma LineStep(calls: seq<Call>, x: int, y: int, err: int, cx: nat, cy: nat,
                 x1: Byte, y1: Byte, x2: Byte, y2: Byte, color: Word,
                 dx: int, dy: int, err': int, x': int, y': int, cx': nat, cy': nat)
    requires LineState(calls, x, y, err, cx, cy, x1, y1, x2, y2, color)
    requires dx == Abs(x2 - x1) && dy == Abs(y2 - y1)
    requires !(x == x2 && y == y2)
    requires cx' == (if err * 2 > -dy then cx + 1 else cx)
    requires x' == (if err * 2 > -dy then x + Unit(x1, x2) else x)
    requires cy' == (if err * 2 < dx then cy + 1 else cy)
    requires y' == (if err * 2 < dx then y + Unit(y1, y2) else y)
    requires err' == err - (if err * 2 > -dy then dy else 0) + (if err * 2 < dx then dx else 0)
    ensures LineState(calls + [DisplayManager.PixelCall(y, x, color)], x', y', err', cx', cy', x1, y1, x2, y2, color)
    ensures cx + cy < cx' + cy'
  {
    StepCounters(x, y, err, cx, cy, x1, y1, x2, y2, dx, dy, err', x', y', cx', cy');
    var here := DisplayManager.PixelCall(y, x, color);
    assert here == Reached(x1, y1, x2, y2, cx, cy, color);
    TrailExtend(calls, here, x1, y1, x2, y2, color);
    ReachedNext(x1, y1, x2, y2, cx, cy, cx', cy', color);
  }

  /** Plotting the end point completes the line with every promised property. */
  lemma LineEnd(calls: seq<Call>, x: int, y: int, err: int, cx: nat, cy: nat,
                x1: Byte, y1: Byte, x2: Byte, y2: Byte, color: Word, all: seq<Call>)
    requires LineState(calls, x, y, err, cx, cy, x1, y1, x2, y2, color)
    requires x == x2 && y == y2
    requires all == calls + [DisplayManager.PixelCall(y, x, color)]
    ensures all[0] == DisplayManager.PixelCall(y1, x1, color)
    ensures all[|all| - 1] == DisplayManager.PixelCall(y2, x2, color)
    ensures forall i :: 0 <= i < |all| - 1 ==> all[i] != DisplayManager.PixelCall(y2, x2, color)
    ensures forall i :: 0 <= i < |all| ==> all[i].color == color && InBox(all[i], x1, y1, x2, y2)
    ensures forall i :: 0 < i < |all| ==>
      Adjacent(all[i - 1], all[i]) && Approaches(all[i - 1], all[i], x2, y2)
    ensures Abs(x2 - x1) + 1 <= |all| && Abs(y2 - y1) + 1 <= |all|
    ensures |all| <= Abs(x2 - x1) + Abs(y2 - y1) + 1
  {
    var here := DisplayManager.PixelCall(y, x, color);
    assert here == Reached(x1, y1, x2, y2, cx, cy, color);
    assert cx == Abs(x2 - x1) && cy == Abs(y2 - y1);
  }

  /** The longer of the two extents: the loop plots one cell per step along it. */
  function Longer(a: nat, b: nat): nat
  {
    if a >= b then a else b
  }

  /** Steps taken after k iterations along an axis of extent `a`, the other
      axis having extent `b`: the longer axis steps every time, and the
      shorter one is at k * a / b rounded to the nearest integer, with halves
      rounded down. */
  function Steps(k: nat, a: nat, b: nat): nat
  {
    if a >= b then k else (2 * k * a + b - 1) / (2 * b)
  }

  /** Along an axis of extent `a`, the step count never passes its end. */
  lemma StepsBound(k: nat, a: nat, b: nat)
    requires k <= Longer(a, b)
    ensures Steps(k, a, b) <= a
  {
    if a < b {
      var n := 2 * k * a + b - 1;
      var q := n / (2 * b);
      DivBounds(n, 2 * b);
      MulMono(2 * a, k, b);
      MulSucc(2 * b, a);
      if q > a {
        MulMono(2 * b, a + 1, q);
      }
    }
  }

  /** The k-th cell plotted on the line from (x1, y1) to (x2, y2). */
  function LineCell(x1: Byte, y1: Byte, x2: Byte, y2: Byte, k: nat, color: Word): Call
    requires k <= Longer(Abs(x2 - x1), Abs(y2 - y1))
  {
    StepsBound(k, Abs(x2 - x1), Abs(y2 - y1));
    StepsBound(k, Abs(y2 - y1), Abs(x2 - x1));
    DisplayManager.PixelCall(Along(y1, y2, Steps(k, Abs(y2 - y1), Abs(x2 - x1))),
                             Along(x1, x2, Steps(k, Abs(x2 - x1), Abs(y2 - y1))), color)
  }

  lemma DivUnique(n: nat, d: nat, m: nat)
    requires d > 0 && d * m <= n < d * m + d
    ensures n / d == m
  {
    var q := n / d;
    DivBounds(n, d);
    MulSucc(d, m);
    MulSucc(d, q);
    if q < m {
      MulMono(d, q + 1, m);
    } else if m < q {
      MulMono(d, m + 1, q);
    }
  }

  /** On the shorter axis, m is the rounded step count after k iterations
      exactly when the scaled deviation m * b - k * a lies in [-b/2, b/2). */
  lemma Rounding(k: int, a: int, b: int, m: int)
    requires 0 <= k && 0 <= m && 0 <= a <= b && 0 < b
    ensures Steps(k, a, b) == m <==> -b <= 2 * (m * b - k * a) < b
  {
    if a == b {
      RoundingTie(k, b, m);
    } else {
      RoundingDiv(k, a, b, m);
    }
  }

  lemma RoundingTie(k: int, b: int, m: int)
    requires 0 <= k && 0 <= m && 0 < b
    ensures m == k <==> -b <= 2 * (m * b - k * b) < b
  {
    var d := m - k;
    assert m * b - k * b == d * b;
    if d >= 1 {
      MulMono(b, 1, d);
    } else if d <= -1 {
      MulMono(b, 1, -d);
      assert d * b == -((-d) * b);
    }
  }

  lemma RoundingDiv(k: int, a: int, b: int, m: int)
    requires 0 <= k && 0 <= m && 0 <= a < b
    ensures (2 * k * a + b - 1) / (2 * b) == m <==> -b <= 2 * (m * b - k * a) < b
  {
    var n := 2 * k * a + b - 1;
    assert (2 * b) * m == 2 * (m * b);
    if -b <= 2 * (m * b - k * a) < b {
      DivUnique(n, 2 * b, m);
    } else if n / (2 * b) == m {
      DivBounds(n, 2 * b);
      assert false;
    }
  }

  /** One iteration on the shorter axis: it steps exactly when the doubled
      deviation is below 2a - b, and the deviation never drops so low that
      the longer axis would fail to step. */
  lemma MinorStep(n: int, a: int, b: int, m: int)
    requires 0 <= n < b && 0 <= a <= b && 0 <= m && Steps(n, a, b) == m
    ensures a - 2 * b < 2 * (m * b - n * a)
    ensures Steps(n + 1, a, b) == (if 2 * (m * b - n * a) < 2 * a - b then m + 1 else m)
  {
    Rounding(n, a, b, m);
    var d := m * b - n * a;
    MulSucc(a, n);
    MulSucc(b, m);
    if 2 * d < 2 * a - b {
      assert (m + 1) * b - (n + 1) * a == d + b - a;
      Rounding(n + 1, a, b, m + 1);
    } else {
      assert m * b - (n + 1) * a == d - a;
      Rounding(n + 1, a, b, m);
    }
  }

  /** The counters after one iteration of the loop are again the closed form,
      one iteration on. */
  lemma LineCounters(err: int, dx: int, dy: int, n: int)
    requires 0 <= dx && 0 <= dy && 0 <= n < Longer(dx, dy)
    requires ErrorTerm(err, dx, dy, Steps(n, dx, dy), Steps(n, dy, dx))
    ensures (if err * 2 > -dy then Steps(n, dx, dy) + 1 else Steps(n, dx, dy)) == Steps(n + 1, dx, dy)
    ensures (if err * 2 < dx then Steps(n, dy, dx) + 1 else Steps(n, dy, dx)) == Steps(n + 1, dy, dx)
  {
    var cx, cy := Steps(n, dx, dy), Steps(n, dy, dx);
    MulSucc(dx, cy);
    MulSucc(dy, cx);
    if dx >= dy {
      MinorStep(n, dy, dx, cy);
    } else {
      MinorStep(n, dx, dy, cx);
    }
  }

  /** After as many iterations as the longer extent, both axes are at their
      ends. */
  lemma LineEnds(dx: nat, dy: nat)
    ensures Steps(Longer(dx, dy), dx, dy) == dx && Steps(Longer(dx, dy), dy, dx) == dy
  {
    if dx > dy {
      DivUnique(2 * dx * dy + dx - 1, 2 * dx, dy);
    } else if dy > dx {
      DivUnique(2 * dy * dx + dy - 1, 2 * dy, dx);
    }
  }

  lemma StepsZero(dx: nat, dy: nat)
    ensures Steps(0, dx, dy) == 0 && Steps(0, dy, dx) == 0
  {
    if dx < dy {
      DivUnique(dy - 1, 2 * dy, 0);
    } else if dy < dx {
      DivUnique(dx - 1, 2 * dx, 0);
    }
  }

  /** The plots so far are the first cells of the closed form, and the
      counters are the closed form one iteration on. */
  ghost predicate OnLine(calls: seq<Call>, cx: int, cy: int, x1: Byte, y1: Byte, x2: Byte, y2: Byte, color: Word)
  {
    && |calls| <= Longer(Abs(x2 - x1), Abs(y2 - y1))
    && cx == Steps(|calls|, Abs(x2 - x1), Abs(y2 - y1))
    && cy == Steps(|calls|, Abs(y2 - y1), Abs(x2 - x1))
    && forall k :: 0 <= k < |calls| ==> calls[k] == LineCell(x1, y1, x2, y2, k, color)
  }

  /** One iteration away from the end point keeps to the closed form. */
  lemma OnLineStep(calls: seq<Call>, x: int, y: int, err: int, cx: nat, cy: nat,
                   x1: Byte, y1: Byte, x2: Byte, y2: Byte, color: Word, dx: int, dy: int, cx': int, cy': int)
    requires LineState(calls, x, y, err, cx, cy, x1, y1, x2, y2, color)
    requires OnLine(calls, cx, cy, x1, y1, x2, y2, color)
    requires dx == Abs(x2 - x1) && dy == Abs(y2 - y1)
    requires !(x == x2 && y == y2)
    requires cx' == (if err * 2 > -dy then cx + 1 else cx)
    requires cy' == (if err * 2 < dx then cy + 1 else cy)
    ensures OnLine(calls + [DisplayManager.PixelCall(y, x, color)], cx', cy', x1, y1, x2, y2, color)
  {
    var n := |calls|;
    assert n < Longer(dx, dy) by {
      LineEnds(dx, dy);
      if dx >= dy {
        assert cx == n;
      } else {
        assert cy == n;
      }
    }
    LineCounters(err, dx, dy, n);
    var p := DisplayManager.PixelCall(y, x, color);
    assert p == LineCell(x1, y1, x2, y2, n, color);
    var all := calls + [p];
    assert forall k :: 0 <= k < |all| ==> all[k] == LineCell(x1, y1, x2, y2, k, color) by {
      forall k | 0 <= k < |all|
        ensures all[k] == LineCell(x1, y1, x2, y2, k, color)
      {
        if k < n {
          assert all[k] == calls[k];
        }
      }
    }
  }

  /** Plotting the end point completes exactly the closed form. */
  lemma OnLineEnd(calls: seq<Call>, x: int, y: int, err: int, cx: nat, cy: nat,
                  x1: Byte, y1: Byte, x2: Byte, y2: Byte, color: Word, all: seq<Call>)
    requires LineState(calls, x, y, err, cx, cy, x1, y1, x2, y2, color)
    requires OnLine(calls, cx, cy, x1, y1, x2, y2, color)
    requires x == x2 && y == y2
    requires all == calls + [DisplayManager.PixelCall(y, x, color)]
    ensures |all| == Longer(Abs(x2 - x1), Abs(y2 - y1)) + 1
    ensures forall k :: 0 <= k < |all| ==> all[k] == LineCell(x1, y1, x2, y2, k, color)
  {
    var dx, dy, n := Abs(x2 - x1), Abs(y2 - y1), |calls|;
    assert cx == dx && cy == dy;
    assert n == Longer(dx, dy);
    assert all[n] == LineCell(x1, y1, x2, y2, n, color);
  }

  /** The cells depend on the order of the endpoints when the rounding meets a
      tie: from (0, 0) to (1, 2) the line passes column 0, row 1, and from
      (1, 2) to (0, 0) it does not. */
  lemma EndpointOrderMatters(color: Word)
    ensures LineCell(0, 0, 1, 2, 1, color) == DisplayManager.PixelCall(1, 0, color)
    ensures forall k :: 0 <= k <= 2 ==> LineCell(1, 2, 0, 0, k, color) != DisplayManager.PixelCall(1, 0, color)
  {
  }

  /** A diagonal is traced through the same cells in either direction. */
  lemma DiagonalReverses(x1: Byte, y1: Byte, x2: Byte, y2: Byte, k: nat, color: Word)
    requires Abs(x2 - x1) == Abs(y2 - y1) && k <= Abs(x2 - x1)
    ensures LineCell(x2, y2, x1, y1, k, color) == LineCell(x1, y1, x2, y2, Abs(x2 - x1) - k, color)
  {
  }

  /** The body of the loop after the plot: the doubled error term decides a
      step along x, along y, or both. */
  method ErrorStep(err: int, dx: int, dy: int, x: int, y: int, sx: int, sy: int) returns (err': int, x': int, y': int)
    ensures x' == (if err * 2 > -dy then x + sx else x)
    ensures y' == (if err * 2 < dx then y + sy else y)
    ensures err' == err - (if err * 2 > -dy then dy else 0) + (if err * 2 < dx then dx else 0)
  {
    err', x', y' := err, x, y;
    var err2 := err * 2;
    if err2 > -dy {
      err' := err' - dy;
      x' := x' + sx;
    }
    if err2 < dx {
      err' := err' + dx;
      y' := y' + sy;
    }
  }

  /** `graphics_drawLine`: Bresenham from (x1, y1) to (x2, y2), plotting the start
      first and stopping right after plotting the end. */
  method DrawLine(x1: Byte, y1: Byte, x2: Byte, y2: Byte, color: Word) returns (calls: seq<Call>)
    ensures |calls| >= 1
    ensures calls[0] == DisplayManager.PixelCall(y1, x1, color)
    ensures calls[|calls| - 1] == DisplayManager.PixelCall(y2, x2, color)
    ensures forall i :: 0 <= i < |calls| - 1 ==> calls[i] != DisplayManager.PixelCall(y2, x2, color)
    ensures forall i :: 0 <= i < |calls| ==> calls[i].color == color && InBox(calls[i], x1, y1, x2, y2)
    ensures forall i :: 0 < i < |calls| ==>
      Adjacent(calls[i - 1], calls[i]) && Approaches(calls[i - 1], calls[i], x2, y2)
    ensures Abs(x2 - x1) + 1 <= |calls| && Abs(y2 - y1) + 1 <= |calls|
    ensures |calls| <= Abs(x2 - x1) + Abs(y2 - y1) + 1
    ensures |calls| == Longer(Abs(x2 - x1), Abs(y2 - y1)) + 1
    ensures forall k :: 0 <= k < |calls| ==> calls[k] == LineCell(x1, y1, x2, y2, k, color)
  {
    var dx: int := Abs(x2 - x1);
    var dy: int := Abs(y2 - y1);
    var sx := if x1 < x2 then 1 else -1;
    var sy := if y1 < y2 then 1 else -1;
    var err := dx - dy;
    var x: int, y: int := x1, y1;
    ghost var cx: nat, cy: nat := 0, 0;
    calls := [];
    StepsZero(dx, dy);
    while true
      invariant LineState(calls, x, y, err, cx, cy, x1, y1, x2, y2, color)
      invariant OnLine(calls, cx, cy, x1, y1, x2, y2, color)
      decreases (dx - cx) + (dy - cy)
    {
      ghost var calls0 := calls;
      calls := calls + [DisplayManager.PixelCall(y, x, color)];
      if x == x2 && y == y2 {
        LineEnd(calls0, x, y, err, cx, cy, x1, y1, x2, y2, color, calls);
        OnLineEnd(calls0, x, y, err, cx, cy, x1, y1, x2, y2, color, calls);
        break;
      }
      ghost var x0, y0, err0, cx0, cy0 := x, y, err, cx, cy;
      err, x, y := ErrorStep(err, dx, dy, x, y, sx, sy);
      cx := if err0 * 2 > -dy then cx + 1 else cx;
      cy := if err0 * 2 < dx then cy + 1 else cy;
      LineStep(calls0, x0, y0, err0, cx0, cy0, x1, y1, x2, y2, color, dx, dy, err, x, y, cx, cy);
      OnLineStep(calls0, x0, y0, err0, cx0, cy0, x1, y1, x2, y2, color, dx, dy, cx, cy);
    }
  }
}
