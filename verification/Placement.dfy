/**
  * treflow as a function of the main screen: which rows are read, how the re-wrapped rows are put back
  * into the screen and the ring, and what this means for the text and the cursor.
  */
module Placement {
  import opened Glyphs
  import opened Ring
  import opened Scrollback
  import opened Tails
  import Rewrap

  const RESIZEBUFFER := 1000

  function Min(a: int, b: int): int { if a < b then a else b }

  function Max(a: int, b: int): int { if a < b then b else a }

  // ---------------------------------------------------------------------------------------------
  // The window of rows that is read.

  /** Last row of the cursor's line, as far as it is on the screen. */
  function LineEnd(screen: seq<Cells>, y: nat): (e: nat)
    requires y < |screen|
    ensures y <= e < |screen|
    ensures forall i | y <= i < e :: IsWrapped(screen[i])
    ensures e == |screen| - 1 || !IsWrapped(screen[e])
    decreases |screen| - y
  {
    if y < |screen| - 1 && IsWrapped(screen[y]) then LineEnd(screen, y + 1) else y
  }

  /** Target rows a source row can need. */
  function Per(col: nat, cols: nat): (per: nat)
    requires 0 < cols
    ensures 0 < per && (0 < col ==> col <= per * cols)
  {
    if 0 < cols < col then
      var j := (col + cols - 1) / cols;
      DivCeil(col, cols);
      j
    else 1
  }

  lemma DivCeil(n: nat, d: nat)
    requires 0 < d < n
    ensures 0 < (n + d - 1) / d && n <= (n + d - 1) / d * d
  {
    var q := (n + d - 1) / d;
    assert n + d - 1 == q * d + (n + d - 1) % d;
  }

  /** Row pointers allocated for the target rows. */
  function Capacity(histf: nat, oce: nat, col: nat, cols: nat, rows: nat): nat
    requires 0 < cols
  {
    var all := Per(col, cols) * (histf + oce + 1);
    if cols < col && all > HISTSIZE + RESIZEBUFFER + rows then HISTSIZE + RESIZEBUFFER + rows else all
  }

  /** First row read, counted from the top of the screen. */
  function Start(histf: nat, oce: nat, col: nat, cols: nat, rows: nat): int
    requires 0 < cols
  {
    var per := Per(col, cols);
    if cols < col && per * (histf + oce + 1) > HISTSIZE + RESIZEBUFFER + rows
    then 0 - ((HISTSIZE + RESIZEBUFFER + rows) / per - oce - 1)
    else 0 - histf
  }

  /** The rows read never need more target rows than were allocated, and none lies before the history. */
  lemma CapacitySuffices(histf: nat, oce: nat, col: nat, cols: nat, rows: nat)
    requires 0 < cols
    ensures 0 - histf <= Start(histf, oce, col, cols, rows)
    ensures var n := oce + 1 - Start(histf, oce, col, cols, rows);
            n >= 0 ==> Per(col, cols) * n <= Capacity(histf, oce, col, cols, rows)
  {
    var per, all, cap := Per(col, cols), histf + oce + 1, HISTSIZE + RESIZEBUFFER + rows;
    if cols < col && per * all > cap {
      var n := cap / per;
      assert cap == per * n + cap % per;
      if n > all {
        MulMonotone(per, all, n);
      }
    }
  }

  /**
    * No more rows are left out than needed: those read are all of them, or one more could need more target rows
    * than the ring and the screen hold together with a reserve.
    */
  lemma WindowMaximal(histf: nat, oce: nat, col: nat, cols: nat, rows: nat)
    requires 0 < cols
    ensures var n := oce + 1 - Start(histf, oce, col, cols, rows);
            && n <= histf + oce + 1
            && (n < histf + oce + 1 ==> cols < col && Per(col, cols) * (n + 1) > HISTSIZE + RESIZEBUFFER + rows)
  {
    var per, cap := Per(col, cols), HISTSIZE + RESIZEBUFFER + rows;
    var n := cap / per;
    assert cap == per * n + cap % per && per * (n + 1) == per * n + per;
    CapacitySuffices(histf, oce, col, cols, rows);
  }

  /** A row of the old width takes that many rows of the new one, and no fewer would do. */
  lemma PerLeast(col: nat, cols: nat, k: nat)
    requires 0 < cols && 0 < col && col <= k * cols
    ensures Per(col, cols) <= k
  {
    if cols < col {
      var j := (col + cols - 1) / cols;
      assert col + cols - 1 == j * cols + (col + cols - 1) % cols;
      if k < j {
        MulMonotone(cols, k + 1, j);
      }
    } else if k == 0 {
      assert false;
    }
  }

  lemma MulMonotone(a: nat, b: nat, c: nat)
    requires b <= c
    ensures a * b <= a * c
  {
  }

  /** The rows the loop reads, as it reads them. */
  function Window(m: Page, cx: nat, start: int, oce: nat): (src: seq<Cells>)
    requires 0 - |m.history| <= start <= oce + 1 <= |m.screen|
    ensures |src| == oce + 1 - start
  {
    var doc := m.history + m.screen;
    Rewrap.ReadRows(doc[|m.history| + start..|m.history| + oce + 1], m.cy - start, cx)
  }

  // ---------------------------------------------------------------------------------------------
  // Placement of the rows written.

  /** New row of the end of the cursor's line, new row of the cursor, last target row that is kept. */
  datatype Place = Place(nce: int, cy: int, ny: int)

  /**
    * at is the row the cursor was captured in, -1 if it was not: then the first row of the screen would be
    * the one before the first that was written.
    */
  function PlaceRows(ny: nat, at: int, oce: nat, oldRows: nat, rows: nat): (p: Place)
    requires -1 <= at <= ny && 0 < rows
    ensures 0 <= p.cy <= p.nce < rows && p.ny <= ny
    ensures p.cy == p.nce - (p.ny - at)
    ensures 0 <= at ==> p.nce <= p.ny && (p.ny < ny ==> p.cy == 0 && p.nce == rows - 1)
    ensures at < 0 ==> p.ny - p.nce == -1
  {
    var bot := Min(ny, rows - 1);
    var nce := Min(oce + Max(rows - oldRows, 0), bot);
    var cy := nce - (ny - at);
    if cy >= 0 then Place(nce, cy, ny)
    else
      var nce' := Min(nce - cy, bot);
      var cy' := cy + nce' - nce;
      if cy' < 0 then Place(nce', 0, ny + cy') else Place(nce', cy', ny)
  }

  function NewScreen(out: seq<Cells>, p: Place, rows: nat, empty: Cells): (s: seq<Cells>)
    requires 0 <= p.nce < rows && p.nce <= p.ny < |out|
    ensures |s| == rows
  {
    out[p.ny - p.nce..p.ny + 1] + Repeat(rows - 1 - p.nce, empty)
  }

  function NewHistory(out: seq<Cells>, p: Place): (h: seq<Cells>)
    requires 0 <= p.nce <= p.ny < |out|
    ensures |h| <= HISTSIZE
  {
    LastN(out[..p.ny - p.nce], HISTSIZE)
  }

  /** History and screen down to the end of the cursor's line are one contiguous run of the rows written. */
  lemma PlacedContiguously(out: seq<Cells>, p: Place, rows: nat, empty: Cells)
    requires 0 <= p.nce < rows && p.nce <= p.ny < |out|
    ensures var h, s := NewHistory(out, p), NewScreen(out, p, rows, empty);
            && |h| == Capped(p.ny - p.nce)
            && h + s[..p.nce + 1] == out[p.ny - p.nce - |h|..p.ny + 1]
  {
    var m := p.ny - p.nce;
    var h := NewHistory(out, p);
    ScreenTop(out, p, rows, empty);
    assert h == out[m - |h|..m];
    hide NewHistory, NewScreen, LastN;
    assert out[m - |h|..m] + out[m..p.ny + 1] == out[m - |h|..p.ny + 1];
  }

  lemma ScreenTop(out: seq<Cells>, p: Place, rows: nat, empty: Cells)
    requires 0 <= p.nce < rows && p.nce <= p.ny < |out|
    ensures NewScreen(out, p, rows, empty)[..p.nce + 1] == out[p.ny - p.nce..p.ny + 1]
  {
  }

  /** The row of the cursor is the row it was captured in. */
  lemma PlacedCursor(out: seq<Cells>, at: nat, oce: nat, oldRows: nat, rows: nat, empty: Cells)
    requires at < |out| && 0 < rows
    ensures var p := PlaceRows(|out| - 1, at, oce, oldRows, rows);
            NewScreen(out, p, rows, empty)[p.cy] == out[at]
  {
    hide PlaceRows;
    var p := PlaceRows(|out| - 1, at, oce, oldRows, rows);
    assert out[p.ny - p.nce..p.ny + 1][p.cy] == out[at];
  }

  /**
    * The placement is the only one that keeps the cursor in its row and on the screen, and the end of its line
    * in the row it was in, moved down by the growth of the screen: it is below that only to bring the cursor
    * onto the screen, in the top row, and above it only when the rows or the screen end there. Rows are dropped
    * only below a cursor in the top row of a full screen.
    */
  lemma PlacedExactly(ny: nat, at: nat, oce: nat, oldRows: nat, rows: nat, p: Place)
    requires at <= ny && 0 < rows
    ensures var want := oce + if rows > oldRows then rows - oldRows else 0;
            p == PlaceRows(ny, at, oce, oldRows, rows) <==>
              && 0 <= p.cy <= p.nce <= p.ny <= ny && p.nce < rows && p.ny - p.nce + p.cy == at
              && (p.ny < ny ==> p.cy == 0 && p.nce == rows - 1)
              && (p.nce > want ==> p.cy == 0)
              && (p.nce < want ==> p.nce == ny || p.nce == rows - 1)
  {
  }

  // ---------------------------------------------------------------------------------------------
  // The whole of treflow.

  datatype Cursor = Cursor(y: int, x: nat, wrapNext: bool)

  /** UPDATEWRAPNEXT for a cursor put in column x. */
  function Resolved(y: int, x: nat, wrapNext: bool, width: nat, cols: nat): Cursor {
    if wrapNext && x + width < cols then Cursor(y, x + width, false) else Cursor(y, x, wrapNext)
  }

  /** What the cursor variables are once the machine has the cursor at s. */
  function CursorFor(s: Rewrap.Spot, x0: nat, wrap0: bool, width: nat, cols: nat): Cursor {
    match s
    case Nowhere => Cursor(-1, x0, wrap0)
    case At(y, x) => Resolved(y, x, wrap0, width, cols)
  }

  predicate Wide(rows: seq<Cells>, col: nat) {
    forall i | 0 <= i < |rows| :: |rows[i]| == col
  }

  /** The rows from the cursor to the end of its line fit the target rows of a narrower screen. */
  predicate CursorInWindow(m: Page, col: nat, cols: nat, rows: nat)
    requires m.cy < |m.screen| && 0 < cols
  {
    cols >= col || Per(col, cols) * (LineEnd(m.screen, m.cy) - m.cy + 1) <= HISTSIZE + RESIZEBUFFER + rows
  }

  /** That is when the rows read begin at or above the cursor. */
  lemma WindowHasCursor(m: Page, col: nat, cols: nat, rows: nat)
    requires m.cy < |m.screen| && 0 < cols
    ensures CursorInWindow(m, col, cols, rows) <==> Start(|m.history|, LineEnd(m.screen, m.cy), col, cols, rows) <= m.cy
  {
    hide LineEnd, Per;
    var per, cap, k := Per(col, cols), HISTSIZE + RESIZEBUFFER + rows, LineEnd(m.screen, m.cy) - m.cy + 1;
    Quotients(cap, per, k);
    MulMonotone(per, k, |m.history| + LineEnd(m.screen, m.cy) + 1);
  }

  lemma Quotients(cap: nat, per: nat, k: nat)
    requires 0 < per
    ensures k <= cap / per <==> per * k <= cap
  {
    var n := cap / per;
    assert cap == per * n + cap % per;
    assert per * (n + 1) == per * n + per;
    if k <= n {
      MulMonotone(per, k, n);
    } else {
      MulMonotone(per, n + 1, k);
    }
  }

  predicate Reflowable(m: Page, cx: nat, col: nat, cols: nat, rows: nat)
    ensures Reflowable(m, cx, col, cols, rows) ==> m.cy < |m.screen| && cx < col && 0 < cols && 0 < rows
  {
    && m.cy < |m.screen| && cx < col && 0 < cols && 0 < rows
    && Wide(m.history, col) && Wide(m.screen, col)
    && CursorInWindow(m, col, cols, rows)
  }

  /** Rows read, rows written, new cursor spot and placement. */
  datatype Plan = Plan(src: seq<Cells>, k: nat, out: seq<Cells>, spot: Rewrap.Spot, place: Place)

  lemma WindowFits(m: Page, cx: nat, col: nat, cols: nat, start: int, oce: nat)
    requires Wide(m.history, col) && Wide(m.screen, col) && 0 < cols && cx < col
    requires 0 - |m.history| <= start <= m.cy <= oce < |m.screen|
    ensures Rewrap.Fits(Window(m, cx, start, oce), cols, Per(col, cols))
    ensures cx < |Window(m, cx, start, oce)[m.cy - start]|
  {
    var src := Window(m, cx, start, oce);
    var doc := m.history + m.screen;
    forall i | 0 <= i < |src| ensures |src[i]| <= col {
      assert |doc[|m.history| + start + i]| == col;
    }
    assert col <= Per(col, cols) * cols;
  }

  function PlanReflow(m: Page, cx: nat, col: nat, cols: nat, rows: nat): (p: Plan)
    requires Reflowable(m, cx, col, cols, rows)
    ensures p.k < |p.src| && cx < |p.src[p.k]|
    ensures p.out == Rewrap.Result(p.src, cols, p.k, cx)
    ensures p.spot.At? && Rewrap.SameCell(p.out, p.spot.y, p.spot.x, p.src, p.k, cx)
    ensures 0 <= p.place.cy <= p.place.nce < rows && p.place.nce <= p.place.ny < |p.out|
    ensures Wide(p.out, cols) && p.spot.x < cols
  {
    var oce := LineEnd(m.screen, m.cy);
    var start := Start(|m.history|, oce, col, cols, rows);
    CapacitySuffices(|m.history|, oce, col, cols, rows);
    WindowHasCursor(m, col, cols, rows);
    var src := Window(m, cx, start, oce);
    WindowFits(m, cx, col, cols, start, oce);
    Rewrap.ReflowTracksCursor(src, cols, m.cy - start, cx);
    Rewrap.ReflowShape(src, cols, m.cy - start, cx);
    var out := Rewrap.Result(src, cols, m.cy - start, cx);
    var spot := Rewrap.NewSpot(src, cols, m.cy - start, cx);
    Plan(src, m.cy - start, out, spot, PlaceRows(|out| - 1, spot.y, oce, |m.screen|, rows))
  }

  /** The definition of PlanReflow, for proofs that keep it folded. */
  lemma PlanParts(m: Page, cx: nat, col: nat, cols: nat, rows: nat)
    requires Reflowable(m, cx, col, cols, rows)
    ensures var p := PlanReflow(m, cx, col, cols, rows);
            var oce := LineEnd(m.screen, m.cy);
            var start := Start(|m.history|, oce, col, cols, rows);
            && 0 - |m.history| <= start <= m.cy
            && p.src == Window(m, cx, start, oce) && p.k == m.cy - start
            && p.spot == Rewrap.NewSpot(p.src, cols, p.k, cx)
            && p.place == PlaceRows(|p.out| - 1, p.spot.y, oce, |m.screen|, rows)
  {
    CapacitySuffices(|m.history|, LineEnd(m.screen, m.cy), col, cols, rows);
    WindowHasCursor(m, col, cols, rows);
  }

  lemma WindowCursorRow(m: Page, cx: nat, start: int, oce: nat)
    requires 0 - |m.history| <= start <= m.cy <= oce < |m.screen|
    ensures Window(m, cx, start, oce)[m.cy - start] == Rewrap.ReadRow(m.screen[m.cy], cx + 1)
  {
    var doc := m.history + m.screen;
    assert doc[|m.history| + start..|m.history| + oce + 1][m.cy - start] == m.screen[m.cy];
  }

  /** The window is the end of the document down to the end of the cursor's line. */
  lemma WindowOfDocument(m: Page, cx: nat, start: int, oce: nat)
    requires 0 - |m.history| <= start <= m.cy <= oce < |m.screen|
    ensures Window(m, cx, start, oce)
            == Rewrap.ReadRows((m.history + m.screen)[..|m.history| + oce + 1][|m.history| + start..], m.cy - start, cx)
  {
    var doc := m.history + m.screen;
    assert doc[|m.history| + start..|m.history| + oce + 1] == doc[..|m.history| + oce + 1][|m.history| + start..];
  }

  /** The cursor cell of the screen: always the same glyph, up to its WRAP bit. */
  lemma ReflowKeepsCursorCell(m: Page, cx: nat, col: nat, cols: nat, rows: nat, empty: Cells)
    requires Reflowable(m, cx, col, cols, rows)
    ensures var p := PlanReflow(m, cx, col, cols, rows);
            var s := NewScreen(p.out, p.place, rows, empty);
            && p.spot.x < |s[p.place.cy]| == cols
            && Rewrap.Plain(s[p.place.cy][p.spot.x]) == Rewrap.Plain(m.screen[m.cy][cx])
  {
    hide PlanReflow, NewScreen, NewHistory, PlaceRows, Start, LineEnd, Window, Rewrap.Result;
    PlanParts(m, cx, col, cols, rows);
    var p := PlanReflow(m, cx, col, cols, rows);
    PlacedCursor(p.out, p.spot.y, LineEnd(m.screen, m.cy), |m.screen|, rows, empty);
    WindowCursorRow(m, cx, Start(|m.history|, LineEnd(m.screen, m.cy), col, cols, rows), LineEnd(m.screen, m.cy));
  }

  /** The last row kept is the last one written, unless the screen is filled from the cursor's row on. */
  lemma CursorPlaced(m: Page, cx: nat, col: nat, cols: nat, rows: nat)
    requires Reflowable(m, cx, col, cols, rows)
    ensures var p := PlanReflow(m, cx, col, cols, rows);
            && p.place.ny - p.place.nce + p.place.cy == p.spot.y
            && (p.place.ny < |p.out| - 1 ==> p.place.cy == 0 && p.place.nce == rows - 1)
  {
    hide PlanReflow, PlaceRows, LineEnd, Start, Per, Window, Reflowable, Rewrap.SameCell;
    PlanParts(m, cx, col, cols, rows);
  }

  /**
    * Where the rows go: the end of the cursor's line stays in its row, moved down by the growth g of the screen,
    * so rows come back from the history only when the screen grew or the cursor would be above it. The rows
    * below that end are empty.
    */
  lemma ReflowPlaces(m: Page, cx: nat, col: nat, cols: nat, rows: nat, empty: Cells)
    requires Reflowable(m, cx, col, cols, rows)
    ensures var p, oce := PlanReflow(m, cx, col, cols, rows), LineEnd(m.screen, m.cy);
            var g, s := (if rows > |m.screen| then rows - |m.screen| else 0), NewScreen(p.out, p.place, rows, empty);
            && (p.place.nce > oce + g ==> p.place.cy == 0)
            && (p.place.nce < oce + g ==> p.place.nce == if |p.out| < rows then |p.out| - 1 else rows - 1)
            && (forall i | p.place.nce < i < rows :: s[i] == empty)
  {
    hide PlanReflow, LineEnd, Start, Per, Window, Reflowable, Rewrap.SameCell, PlaceRows;
    PlanParts(m, cx, col, cols, rows);
    var p := PlanReflow(m, cx, col, cols, rows);
    PlacedExactly(|p.out| - 1, p.spot.y, LineEnd(m.screen, m.cy), |m.screen|, rows, p.place);
  }

  /** If every row read becomes one row and the height stays, every row stays where it is. */
  lemma NothingMoves(m: Page, cx: nat, col: nat, cols: nat)
    requires Reflowable(m, cx, col, cols, |m.screen|) && |m.history| <= HISTSIZE
    requires var p := PlanReflow(m, cx, col, cols, |m.screen|);
      |p.out| == |p.src| && p.spot.y == p.k && NothingLost(m, cx, col, cols, |m.screen|)
    ensures var p := PlanReflow(m, cx, col, cols, |m.screen|);
            && p.place.cy == m.cy && p.place.nce == LineEnd(m.screen, m.cy)
            && |NewHistory(p.out, p.place)| == |m.history|
  {
    hide PlanReflow, LineEnd, Start, Per, Reflowable, Rewrap.SameCell;
    PlanParts(m, cx, col, cols, |m.screen|);
  }

  lemma BeforeAsRead(rows: seq<Cells>, y: nat, x: nat)
    requires Rewrap.Clean(rows) && y < |rows| && x < |rows[y]|
    ensures x < |Rewrap.ReadRows(rows, y, x)[y]|
    ensures Rewrap.Before(Rewrap.ReadRows(rows, y, x), y, x) == Rewrap.Before(rows, y, x)
  {
    var src := Rewrap.ReadRows(rows, y, x);
    Rewrap.ReadRowsKeepText(rows[..y], y, x);
    assert src[..y] == Rewrap.ReadRows(rows[..y], y, x);
    assert src[y][..x] == rows[y][..x];
  }

  lemma BeforeInPrefix(rows: seq<Cells>, n: nat, y: nat, x: nat)
    requires y < n <= |rows| && x <= |rows[y]|
    ensures Rewrap.Before(rows[..n], y, x) == Rewrap.Before(rows, y, x)
  {
    assert rows[..n][..y] == rows[..y];
  }

  /** The document down to the end of the cursor's line, before and after. */
  function OldRows(m: Page): (d: seq<Cells>)
    requires m.cy < |m.screen|
    ensures |m.history| + m.cy < |d| && d[|m.history| + m.cy] == m.screen[m.cy]
  {
    (m.history + m.screen)[..|m.history| + LineEnd(m.screen, m.cy) + 1]
  }

  function NewRows(p: Plan, rows: nat, empty: Cells): (d: seq<Cells>)
    requires 0 <= p.place.nce < rows && p.place.nce <= p.place.ny < |p.out|
  {
    NewHistory(p.out, p.place) + NewScreen(p.out, p.place, rows, empty)[..p.place.nce + 1]
  }

  /** The text in front of the cursor, before and after. */
  function TextBefore(m: Page, cx: nat): Rewrap.Text
    requires m.cy < |m.screen| && cx <= |m.screen[m.cy]|
  {
    Rewrap.Before(OldRows(m), |m.history| + m.cy, cx)
  }

  function TextAfter(p: Plan, rows: nat, empty: Cells): Rewrap.Text
    requires 0 <= p.place.cy <= p.place.nce < rows && p.place.nce <= p.place.ny < |p.out|
    requires p.spot.At? && p.spot.x <= |p.out[p.place.ny - p.place.nce + p.place.cy]|
  {
    Rewrap.Before(NewRows(p, rows, empty), |NewHistory(p.out, p.place)| + p.place.cy, p.spot.x)
  }

  /** No row was left out by the cut, and none has to leave the ring. */
  predicate NothingLost(m: Page, cx: nat, col: nat, cols: nat, rows: nat)
    requires Reflowable(m, cx, col, cols, rows)
  {
    var p := PlanReflow(m, cx, col, cols, rows);
    p.k == |m.history| + m.cy && p.place.ny - p.place.nce <= HISTSIZE
  }

  /** The rows read as a part of the document, and the rows kept as a part of those written. */
  lemma PlanRanges(m: Page, cx: nat, col: nat, cols: nat, rows: nat, empty: Cells) returns (from: nat, to: nat)
    requires Reflowable(m, cx, col, cols, rows)
    ensures var p := PlanReflow(m, cx, col, cols, rows);
            && from + p.k == |m.history| + m.cy && from <= |OldRows(m)|
            && p.src == Rewrap.ReadRows(OldRows(m)[from..], p.k, cx)
            && to <= p.spot.y <= p.place.ny && to + |NewHistory(p.out, p.place)| + p.place.cy == p.spot.y
            && NewRows(p, rows, empty) == p.out[..p.place.ny + 1][to..]
            && (NothingLost(m, cx, col, cols, rows) ==> from == 0 && to == 0)
  {
    hide PlanReflow, PlaceRows, LineEnd, Start, Window, NewScreen, NewHistory, Rewrap.Result, Rewrap.SameCell;
    PlanParts(m, cx, col, cols, rows);
    CursorPlaced(m, cx, col, cols, rows);
    var p := PlanReflow(m, cx, col, cols, rows);
    var start := Start(|m.history|, LineEnd(m.screen, m.cy), col, cols, rows);
    WindowOfDocument(m, cx, start, LineEnd(m.screen, m.cy));
    PlacedContiguously(p.out, p.place, rows, empty);
    from := |m.history| + start;
    to := p.place.ny - p.place.nce - |NewHistory(p.out, p.place)|;
    assert p.out[to..p.place.ny + 1] == p.out[..p.place.ny + 1][to..];
  }

  lemma OldRowsFacts(m: Page, cx: nat, col: nat, cols: nat, rows: nat)
    requires Reflowable(m, cx, col, cols, rows) && Rewrap.Clean(m.history + m.screen)
    ensures Rewrap.Clean(OldRows(m)) && cx < |OldRows(m)[|m.history| + m.cy]|
  {
  }

  lemma CleanTail(rows: seq<Cells>, k: nat)
    requires k <= |rows| && Rewrap.Clean(rows)
    ensures Rewrap.Clean(rows[k..])
  {
  }

  /**
    * The text in front of the cursor: what is left of it when rows are cut off or leave the ring is its end,
    * and nothing is missing otherwise.
    */
  lemma ReflowKeepsTextBeforeCursor(m: Page, cx: nat, col: nat, cols: nat, rows: nat, empty: Cells)
    requires Reflowable(m, cx, col, cols, rows)
    requires Rewrap.Clean(m.history + m.screen)
    ensures var p := PlanReflow(m, cx, col, cols, rows);
            && TailText(TextAfter(p, rows, empty), TextBefore(m, cx))
            && (NothingLost(m, cx, col, cols, rows) ==> TextAfter(p, rows, empty) == TextBefore(m, cx))
  {
    hide PlanReflow, NewScreen, NewHistory, NewRows, OldRows, Rewrap.Before, TailText, Rewrap.Clean, Reflowable,
      NothingLost, Rewrap.ReadRows, Rewrap.Result;
    var p := PlanReflow(m, cx, col, cols, rows);
    var from, to := PlanRanges(m, cx, col, cols, rows, empty);
    var was, y := OldRows(m), |m.history| + m.cy;
    OldRowsFacts(m, cx, col, cols, rows);
    CleanTail(was, from);
    BeforeAsRead(was[from..], p.k, cx);
    BeforeTail(was, from, y, cx);
    var o := p.out[..p.place.ny + 1];
    BeforeInPrefix(p.out, p.place.ny + 1, p.spot.y, p.spot.x);
    BeforeTail(o, to, p.spot.y, p.spot.x);
    TailTextTwice(Rewrap.Before(o[to..], p.spot.y - to, p.spot.x), Rewrap.Before(o, p.spot.y, p.spot.x),
      Rewrap.Before(was, y, cx));
    assert from == 0 ==> was[from..] == was;
    assert to == 0 ==> o[to..] == o;
  }

  /**
    * Changing the width keeps the logical lines of the document down to the end of the cursor's line: all of
    * them when nothing is lost, and else the last ones, the first of those perhaps without its beginning. Only
    * if the part of the cursor's line behind the cursor does not fit on the screen, its end is dropped; then the
    * cursor is in the top row and the screen is filled from there.
    */
  lemma ReflowKeepsDocument(m: Page, cx: nat, col: nat, cols: nat, rows: nat, empty: Cells)
    requires Reflowable(m, cx, col, cols, rows)
    requires Rewrap.Clean(m.history + m.screen)
    ensures var p := PlanReflow(m, cx, col, cols, rows);
            var before, after := Rewrap.Lines(OldRows(m)), Rewrap.Lines(NewRows(p, rows, empty));
            if p.place.ny == |p.out| - 1 then
              TailLines(after, before) && (NothingLost(m, cx, col, cols, rows) ==> after == before)
            else
              p.place.cy == 0 && p.place.nce == rows - 1 && TailLines(after, Rewrap.Lines(p.out[..p.place.ny + 1]))
  {
    hide PlanReflow, NewScreen, NewHistory, NewRows, OldRows, TailLines, Rewrap.Clean, Rewrap.Lines, Reflowable,
      NothingLost, Rewrap.ReadRows, Rewrap.Result, Rewrap.SameCell;
    var p := PlanReflow(m, cx, col, cols, rows);
    var from, to := PlanRanges(m, cx, col, cols, rows, empty);
    var was := OldRows(m);
    OldRowsFacts(m, cx, col, cols, rows);
    CursorPlaced(m, cx, col, cols, rows);
    var o := p.out[..p.place.ny + 1];
    RowsLinesTail(o, to);
    assert to == 0 ==> o[to..] == o;
    if p.place.ny == |p.out| - 1 {
      assert o == p.out;
      Rewrap.ReflowPreservesText(p.src, cols, p.k, cx);
      CleanTail(was, from);
      LinesAsRead(was[from..], p.k, cx);
      RowsLinesTail(was, from);
      TailLinesTwice(Rewrap.Lines(o[to..]), Rewrap.Lines(o), Rewrap.Lines(was));
      assert from == 0 ==> was[from..] == was;
    }
  }

  lemma LinesAsRead(rows: seq<Cells>, cy: nat, cx: nat)
    requires Rewrap.Clean(rows)
    ensures Rewrap.Lines(Rewrap.ReadRows(rows, cy, cx)) == Rewrap.Lines(rows)
  {
    Rewrap.ReadRowsKeepText(rows, cy, cx);
  }

  // ---------------------------------------------------------------------------------------------
  // When the width can be changed at all.

  /** The rows that the loop reads, of which there is always one. */
  function RowsRead(m: Page, cx: nat, start: int, oce: nat): seq<Cells>
    requires 0 - |m.history| <= start <= oce + 1 <= |m.screen| && start < |m.screen|
  {
    Window(m, cx, start, if start <= oce then oce else start)
  }

  /** The row of the cursor, -1 if it was not captured. */
  function RowOf(s: Rewrap.Spot): (y: int)
    ensures -1 <= y
  {
    match s
    case Nowhere => -1
    case At(y, _) => y
  }

  /** Every row that is read exists, the cursor is captured, and no index into the rows written is negative. */
  ghost predicate SafeReflow(m: Page, cx: nat, cols: nat, rows: nat, start: int, oce: nat)
    requires 0 - |m.history| <= start <= oce + 1 <= |m.screen| && 0 < cols && 0 < rows
  {
    && start < |m.screen|
    && var src := RowsRead(m, cx, start, oce);
    var out, at := Rewrap.Result(src, cols, m.cy - start, cx), RowOf(Rewrap.NewSpot(src, cols, m.cy - start, cx));
    && 0 <= at < |out|
    && var p := PlaceRows(|out| - 1, at, oce, |m.screen|, rows);
    0 <= p.ny - p.nce
  }

  /** A width change is safe exactly if the cursor's row is among the rows read. */
  lemma ReflowSafeExactly(m: Page, cx: nat, col: nat, cols: nat, rows: nat)
    requires m.cy < |m.screen| && cx < col && 0 < cols && 0 < rows && Wide(m.history, col) && Wide(m.screen, col)
    ensures var oce := LineEnd(m.screen, m.cy);
            var start := Start(|m.history|, oce, col, cols, rows);
            && 0 - |m.history| <= start <= oce + 1
            && (SafeReflow(m, cx, cols, rows, start, oce) <==> CursorInWindow(m, col, cols, rows))
  {
    hide PlaceRows, LineEnd, Window, Rewrap.Result, Rewrap.NewSpot;
    var oce := LineEnd(m.screen, m.cy);
    var start := Start(|m.history|, oce, col, cols, rows);
    CapacitySuffices(|m.history|, oce, col, cols, rows);
    WindowHasCursor(m, col, cols, rows);
    if start < |m.screen| {
      var src := RowsRead(m, cx, start, oce);
      if start <= m.cy {
        WindowFits(m, cx, col, cols, start, oce);
        Rewrap.ReflowTracksCursor(src, cols, m.cy - start, cx);
      }
      Rewrap.CapturedExactly(src, cols, m.cy - start, cx);
    }
  }

  /** Without the capture the first screen row would be taken from in front of the rows written. */
  lemma UncapturedIndex(ny: nat, oce: nat, oldRows: nat, rows: nat)
    requires 0 < rows
    ensures var p := PlaceRows(ny, -1, oce, oldRows, rows); p.nce >= 0 && p.ny - p.nce == -1
  {
  }

  /** A row of 300 columns that goes on. */
  const LONG_ROW := Blanks(299, EMPTY.(isSet := true)) + [EMPTY.(isSet := true, wrap := true)]

  /** Forty such rows are one line: the tenth row is not read when the screen gets three columns and sixty rows. */
  lemma UnsafeInstance()
    ensures var m := Page([], Repeat(40, LONG_ROW), 9);
            && Wide(m.screen, 300) && Rewrap.Clean(m.screen) && !CursorInWindow(m, 300, 3, 60)
            && Start(0, LineEnd(m.screen, m.cy), 300, 3, 60) == 10
  {
    var m := Page([], Repeat(40, LONG_ROW), 9);
    LineLenUnique(LONG_ROW, 300);
    assert IsWrapped(LONG_ROW);
    assert LineEnd(m.screen, 9) == 39;
  }
}
