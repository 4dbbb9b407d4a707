/**
  * Scrolling and resizing of the main screen on row contents: what the pointer swaps of st.c amount to.
  */
module Scrollback {
  import opened Glyphs
  import opened Ring
  import opened Selection

  type Cells = seq<Glyph>

  function Repeat<T>(n: nat, x: T): (s: seq<T>)
    ensures |s| == n && forall i | 0 <= i < n :: s[i] == x
  {
    seq(n, _ => x)
  }

  /** Rows [top, bot] moved up by n with blank rows entering from below. */
  function ShiftUp(s: seq<Cells>, top: nat, bot: nat, n: nat, blank: Cells): (r: seq<Cells>)
    requires top <= bot < |s| && n <= bot - top + 1
    ensures |r| == |s|
  {
    s[..top] + s[top + n..bot + 1] + Repeat(n, blank) + s[bot + 1..]
  }

  /** Rows [top, bot] moved down by n with blank rows entering from above. */
  function ShiftDown(s: seq<Cells>, top: nat, bot: nat, n: nat, blank: Cells): (r: seq<Cells>)
    requires top <= bot < |s| && n <= bot - top + 1
    ensures |r| == |s|
  {
    s[..top] + Repeat(n, blank) + s[top..bot + 1 - n] + s[bot + 1..]
  }

  function Cleared(s: seq<Cells>, y1: nat, y2: nat, blank: Cells): (r: seq<Cells>)
    requires y1 <= y2 <= |s|
    ensures |r| == |s|
  {
    s[..y1] + Repeat(y2 - y1, blank) + s[y2..]
  }

  // Steps of the loops below, on the sequence of row contents.

  /** The n blank rows of tscrollup have sunk from position top to position i. */
  function Sunk(was: seq<Cells>, top: nat, i: nat, n: nat, b: Cells): (r: seq<Cells>)
    requires top <= i && i + n <= |was|
    ensures |r| == |was|
  {
    was[..top] + was[top + n..i + n] + Repeat(n, b) + was[i + n..]
  }

  lemma SinkStep(was: seq<Cells>, top: nat, i: nat, n: nat, b: Cells)
    requires top <= i && 0 < n && i + n < |was|
    ensures var s := Sunk(was, top, i, n, b);
            s[i := s[i + n]][i + n := s[i]] == Sunk(was, top, i + 1, n, b)
  {
    var s := Sunk(was, top, i, n, b);
    assert s[i + n] == was[i + n] && s[i] == b;
  }

  lemma SinkEnds(was: seq<Cells>, top: nat, bot: nat, n: nat, b: Cells)
    requires top <= bot < |was| && 0 < n <= bot - top + 1
    ensures Sunk(was, top, top, n, b) == Cleared(was, top, top + n, b)
    ensures Sunk(was, top, bot - n + 1, n, b) == ShiftUp(was, top, bot, n, b)
  {
  }

  /** The n blank rows of tscrolldown have risen from position bot + 1 - n to position i + 1 - n. */
  function Raised(was: seq<Cells>, i: int, bot: nat, n: nat, b: Cells): (r: seq<Cells>)
    requires n - 1 <= i <= bot < |was|
    ensures |r| == |was|
  {
    was[..i + 1 - n] + Repeat(n, b) + was[i + 1 - n..bot + 1 - n] + was[bot + 1..]
  }

  lemma RaiseStep(was: seq<Cells>, bot: nat, i: nat, n: nat, b: Cells)
    requires n <= i <= bot < |was| && 0 < n
    ensures var s := Raised(was, i, bot, n, b);
            s[i := s[i - n]][i - n := s[i]] == Raised(was, i - 1, bot, n, b)
  {
    var s := Raised(was, i, bot, n, b);
    assert s[i - n] == was[i - n] && s[i] == b;
  }

  lemma RaiseEnds(was: seq<Cells>, top: nat, bot: nat, n: nat, b: Cells)
    requires top <= bot < |was| && 0 < n <= bot - top + 1
    ensures Raised(was, bot, bot, n, b) == Cleared(was, bot - n + 1, bot + 1, b)
    ensures Raised(was, top + n - 1, bot, n, b) == ShiftDown(was, top, bot, n, b)
  {
  }

  lemma ClearStep(was: seq<Cells>, y1: nat, y: nat, b: Cells)
    requires y1 <= y < |was|
    ensures Cleared(was, y1, y, b)[y := b] == Cleared(was, y1, y + 1, b)
    ensures Cleared(was, y1, y1, b) == was
    ensures Cleared(was, y1, y, b)[y] == was[y]
  {
  }

  /** One turn of the history loop on values. */
  lemma SaveStep(texts: seq<Cells>, was: seq<Cells>, i: nat, b: Cells)
    requires i < |was|
    ensures var s := Cleared(was, 0, i, b);
            && s[i := b] == Cleared(was, 0, i + 1, b)
            && LastN(LastN(texts + was[..i], HISTSIZE) + [s[i]], HISTSIZE) == LastN(texts + was[..i + 1], HISTSIZE)
  {
    ClearStep(was, 0, i, b);
    LastNAppend(texts + was[..i], [was[i]], HISTSIZE);
    assert texts + was[..i] + [was[i]] == texts + was[..i + 1];
  }

  lemma SavedNothing(texts: seq<Cells>, was: seq<Cells>, b: Cells)
    requires |texts| <= HISTSIZE
    ensures Cleared(was, 0, 0, b) == was
    ensures LastN(texts + was[..0], HISTSIZE) == texts
  {
    assert texts + was[..0] == texts;
  }

  function Resized(s: seq<Cells>, rows: nat, blank: Cells): (r: seq<Cells>)
    ensures |r| == rows
  {
    if rows <= |s| then s[..rows] else s + Repeat(rows - |s|, blank)
  }

  /** The n newest history rows in front of the screen, which loses the n rows below the cursor. */
  function Pulled<T>(history: seq<T>, screen: seq<T>, cy: nat, n: nat): (r: seq<T>)
    requires n <= |history| && cy + n < |screen|
    ensures |r| == |screen|
  {
    history[|history| - n..] + screen[..cy + 1] + screen[cy + 1 + n..]
  }

  /** Rows above position i of the first loop of rscrolldown are in their final place. */
  predicate Opened<T(==)>(was: seq<T>, now: seq<T>, i: int, cy: nat, n: nat) {
    && |now| == |was| && n - 1 <= i <= cy + n < |was|
    && (forall k | 0 <= k <= i - n :: now[k] == was[k])
    && (forall k | i < k <= cy + n :: now[k] == was[k - n])
    && (forall k | cy + n < k < |was| :: now[k] == was[k])
  }

  /** Positions i to n - 1 hold the newest of the stored rows, the others are untouched. */
  predicate Filled<T(==)>(stored: seq<T>, was: seq<T>, now: seq<T>, i: int, n: nat) {
    && |now| == |was| && 0 <= i <= n <= |was| && n <= |stored|
    && (forall k | i <= k < n :: now[k] == stored[|stored| - n + k])
    && (forall k | 0 <= k < i :: now[k] == was[k])
    && (forall k | n <= k < |was| :: now[k] == was[k])
  }

  lemma OpenedStart<T>(was: seq<T>, cy: nat, n: nat)
    requires cy + n < |was| && 0 < n
    ensures Opened(was, was, cy + n, cy, n)
  {
  }

  lemma OpenedNext<T>(was: seq<T>, now: seq<T>, i: nat, cy: nat, n: nat)
    requires 0 < n <= i <= cy + n < |now| && Opened(was, now, i, cy, n)
    ensures Opened(was, now[i := now[i - n]][i - n := now[i]], i - 1, cy, n)
  {
  }

  lemma OpenedFilled<T>(stored: seq<T>, was: seq<T>, mid: seq<T>, now: seq<T>, cy: nat, n: nat)
    requires Opened(was, mid, n - 1, cy, n) && Filled(stored, mid, now, 0, n)
    ensures now == Pulled(stored, was, cy, n)
  {
    var r := Pulled(stored, was, cy, n);
    assert forall k | 0 <= k < |now| :: now[k] == r[k];
  }

  lemma PulledNothing(history: seq<Cells>, screen: seq<Cells>, cy: nat)
    requires cy < |screen|
    ensures Pulled(history, screen, cy, 0) == screen && history[..|history|] == history
  {
  }

  function SelFollowing(sel: Sel, n: int): Sel {
    if sel.Active() && !sel.alt then sel.Move(n) else sel
  }

  function ScrAfter(scr: nat, saved: nat): nat {
    if scr == 0 then 0 else Capped(scr + saved)
  }

  /** selection after n rows went to the history: it moves up unless the view moved along */
  function SelAfterSave(sel: Sel, scr: nat, n: nat, histf: nat): Sel {
    SelMovedUp(sel, Slip(scr, n), ScrAfter(scr, n), histf)
  }

  function SelMovedUp(sel: Sel, s: nat, scr: nat, histf: nat): Sel {
    if sel.Active() && !sel.alt && s > 0 then
      var moved := sel.Move(0 - s);
      if moved.nby - scr < 0 - histf then moved.Remove() else moved
    else sel
  }

  /** selection after rows y .. y + n - 1 were cleared and the region [top, bot] moved by d rows */
  function SelAfterShift(sel: Sel, scr: nat, col: nat, y: nat, top: nat, bot: nat, n: nat, d: int): Sel {
    var cleared := if sel.Touches(scr, y + scr, col - 1 + scr, y + n - 1 + scr) then sel.Remove() else sel;
    if cleared.Active() && !cleared.alt then cleared.Scroll(top + scr, bot + scr, d) else cleared
  }

  /** Row y of the view, as a row of the document history + screen (the macro TLINE). */
  function DocRow(histf: nat, scr: nat, y: int): int {
    histf - scr + y
  }

  /** Every end of the selection is on the same document row, counted from the oldest row, minus `gone`. */
  ghost predicate SameRows(sel: Sel, histf: nat, scr: nat, sel': Sel, histf': nat, scr': nat, gone: int) {
    && sel'.Active()
    && DocRow(histf', scr', sel'.nby) == DocRow(histf, scr, sel.nby) - gone
    && DocRow(histf', scr', sel'.ney) == DocRow(histf, scr, sel.ney) - gone
    && DocRow(histf', scr', sel'.oby) == DocRow(histf, scr, sel.oby) - gone
    && DocRow(histf', scr', sel'.oey) == DocRow(histf, scr, sel.oey) - gone
  }

  // ---------------------------------------------------------------------------------------------
  // The main screen as a value.

  datatype Main = Main(history: seq<Cells>, screen: seq<Cells>, scr: nat, sel: Sel)

  /** How many rows a scroll by n of region [top, bot] really moves. */
  function Moves(top: nat, bot: nat, n: int): nat {
    if n <= 0 || bot < top then 0 else if n < bot - top + 1 then n else bot - top + 1
  }

  /** A scroll that saves n rows from the top of the screen. */
  function SaveScroll(m: Main, bot: nat, n: nat, blank: Cells): Main
    requires bot < |m.screen| && n <= bot + 1
  {
    Main(LastN(m.history + m.screen[..n], HISTSIZE), ShiftUp(m.screen, 0, bot, n, blank), ScrAfter(m.scr, n),
         SelAfterSave(m.sel, m.scr, n, Capped(|m.history| + n)))
  }

  /** A scroll of a region that drops its first n rows. */
  function DropScroll(m: Main, top: nat, bot: nat, n: nat, col: nat, blank: Cells): Main
    requires top <= bot < |m.screen| && n <= bot - top + 1
  {
    m.(screen := ShiftUp(m.screen, top, bot, n, blank),
      sel := SelAfterShift(m.sel, m.scr, col, top, top, bot, n, 0 - n))
  }

  function ScrollUp(m: Main, top: nat, bot: nat, n: int, save: bool, col: nat, blank: Cells): Main
    requires top <= bot < |m.screen|
  {
    if n <= 0 then m
    else if top == 0 && save then SaveScroll(m, bot, Moves(top, bot, n), blank)
    else DropScroll(m, top, bot, Moves(top, bot, n), col, blank)
  }

  function ScrollDown(m: Main, top: nat, bot: nat, n: int, col: nat, blank: Cells): Main
    requires top <= bot < |m.screen|
  {
    var k := Moves(top, bot, n);
    if n <= 0 then m
    else m.(screen := ShiftDown(m.screen, top, bot, k, blank),
            sel := SelAfterShift(m.sel, m.scr, col, bot - k + 1, top, bot, k, k))
  }

  /** Row by row: inside the region a row of t is the one of s that is d below it, or blank if that is outside. */
  predicate Moved(s: seq<Cells>, t: seq<Cells>, top: nat, bot: nat, d: int, blank: Cells)
    requires bot < |s|
  {
    && |t| == |s|
    && forall i | 0 <= i < |s| ::
      t[i] == if !(top <= i <= bot) then s[i] else if top <= i + d <= bot then s[i + d] else blank
  }

  /**
    * Row by row: inside the region a row is the one n below it, or blank if that is outside, and all other rows
    * stay. The rows that leave the top of the screen are saved behind the history, as many as the ring can hold,
    * whether or not the region ends on the last row; otherwise history and view stay.
    */
  lemma ScrollUpRows(m: Main, top: nat, bot: nat, n: int, save: bool, col: nat, blank: Cells)
    requires top <= bot < |m.screen| && |m.history| <= HISTSIZE
    ensures var r, d := ScrollUp(m, top, bot, n, save, col, blank), if n > 0 then n else 0;
            && Moved(m.screen, r.screen, top, bot, d, blank)
            && (top > 0 || !save || n <= 0 ==> r.history == m.history && r.scr == m.scr)
            && (top == 0 && save && n > 0 ==>
              var all := m.history + m.screen[..if n <= bot then n else bot + 1];
              && |r.history| == (if |all| < HISTSIZE then |all| else HISTSIZE)
              && r.history == all[|all| - |r.history|..])
  {
    if n > 0 {
      if top == 0 && save {
        SavedRows(m, bot, Moves(top, bot, n), blank);
      }
      hide SaveScroll;
      ShiftUpRows(m.screen, top, bot, n, blank);
    }
  }

  lemma ShiftUpRows(s: seq<Cells>, top: nat, bot: nat, n: nat, blank: Cells)
    requires top <= bot < |s| && 0 < n
    ensures Moved(s, ShiftUp(s, top, bot, Moves(top, bot, n), blank), top, bot, n, blank)
  {
  }

  lemma SavedRows(m: Main, bot: nat, k: nat, blank: Cells)
    requires bot < |m.screen| && k <= bot + 1 && |m.history| <= HISTSIZE
    ensures var r, all := SaveScroll(m, bot, k, blank), m.history + m.screen[..k];
            && r.screen == ShiftUp(m.screen, 0, bot, k, blank)
            && |r.history| == (if |all| < HISTSIZE then |all| else HISTSIZE)
            && r.history == all[|all| - |r.history|..]
  {
    hide ShiftUp;
  }

  /** The same downwards: a row is the one n above it, and nothing is saved or brought back. */
  lemma ScrollDownRows(m: Main, top: nat, bot: nat, n: int, col: nat, blank: Cells)
    requires top <= bot < |m.screen|
    ensures var r, d := ScrollDown(m, top, bot, n, col, blank), if n > 0 then n else 0;
            && Moved(m.screen, r.screen, top, bot, 0 - d, blank) && r.history == m.history && r.scr == m.scr
  {
  }

  /**
    * Scrolling a region down and up again restores all rows but those that were scrolled out at its end, which
    * are blank.
    */
  lemma DownAndUp(m: Main, top: nat, bot: nat, n: int, col: nat, blank: Cells)
    requires top <= bot < |m.screen| && |m.history| <= HISTSIZE && 0 < n <= bot - top + 1
    ensures var r := ScrollUp(ScrollDown(m, top, bot, n, col, blank), top, bot, n, false, col, blank);
            && |r.screen| == |m.screen| && r.history == m.history
            && (forall i | 0 <= i < |m.screen| ::
              r.screen[i] == if bot - n < i <= bot then blank else m.screen[i])
  {
    ScrollDownRows(m, top, bot, n, col, blank);
    var t := ScrollDown(m, top, bot, n, col, blank);
    var r := ScrollUp(t, top, bot, n, false, col, blank);
    ScrollUpRows(t, top, bot, n, false, col, blank);
    forall i | 0 <= i < |m.screen| ensures r.screen[i] == if bot - n < i <= bot then blank else m.screen[i] {
      var j := if top <= i && i + n <= bot then i + n else i;
      assert j == i + n ==> t.screen[j] == m.screen[j - n];
      assert j == i && !(top <= i <= bot) ==> t.screen[j] == m.screen[j];
    }
  }

  /** Row y of the view lies in the region. */
  predicate InRegion(y: int, scr: nat, top: nat, bot: nat) {
    top <= y - scr <= bot
  }

  /**
    * After a scroll that saves nothing a selection is still there exactly if none of its cells was cleared, at the
    * top of the region before it moves up or at its end, and it begins and ends inside the region, before and
    * after, or outside of it; inside it moves along.
    */
  lemma SelectionAfterScroll(m: Main, top: nat, bot: nat, n: int, col: nat, blank: Cells, up: bool)
    requires top <= bot < |m.screen| && n > 0 && m.sel.Active() && !m.sel.alt
    ensures var r := if up then ScrollUp(m, top, bot, n, false, col, blank) else ScrollDown(m, top, bot, n, col, blank);
            var k := if n < bot - top + 1 then n else bot - top + 1;
            var y1, y2 := if up then top else bot - k + 1, if up then top + k - 1 else bot;
            var d := if up then 0 - k else k;
            var inside := InRegion(m.sel.nby, m.scr, top, bot);
            && (r.sel.Active() <==>
              && !m.sel.Touches(m.scr, y1 + m.scr, col - 1 + m.scr, y2 + m.scr)
              && (inside <==> InRegion(m.sel.ney, m.scr, top, bot))
              && (inside ==> top <= m.sel.nby - m.scr + d && m.sel.ney - m.scr + d <= bot))
            && (r.sel.Active() ==> r.sel == if inside then m.sel.Move(d) else m.sel)
  {
  }

  /** A selection that moves with its region is still on the same rows. */
  lemma SelectionKeepsRows(m: Main, top: nat, bot: nat, n: int, col: nat, blank: Cells, up: bool, i: int)
    requires top <= bot < |m.screen| && |m.history| <= HISTSIZE && n > 0
    requires m.sel.Active() && !m.sel.alt && InRegion(m.sel.nby, m.scr, top, bot)
    requires m.sel.nby - m.scr <= i <= m.sel.ney - m.scr
    ensures var r := if up then ScrollUp(m, top, bot, n, false, col, blank) else ScrollDown(m, top, bot, n, col, blank);
            r.sel.Active() ==>
              var j := i + r.sel.nby - m.sel.nby;
              0 <= j < |m.screen| && 0 <= i < |m.screen| && r.screen[j] == m.screen[i]
  {
  }

  /** rscrolldown: n rows come back from the history, above the rows down to the cursor. */
  function PullBack(m: Main, cy: nat, n: nat): Main
    requires n <= |m.history| && cy + n < |m.screen|
  {
    Main(m.history[..|m.history| - n], Pulled(m.history, m.screen, cy, n),
         if m.scr < n then 0 else m.scr - n,
         if m.scr < n then SelFollowing(m.sel, n - m.scr) else m.sel)
  }

  /** The view keeps its rows, unless it has to come to the end of the history; the selection always keeps its own. */
  lemma PulledView(m: Main, cy: nat, n: nat)
    requires m.scr <= |m.history| && n <= |m.history| && cy + n < |m.screen|
    ensures var r := PullBack(m, cy, n);
            && (if m.scr < n then r.scr == 0 else DocRow(|r.history|, r.scr, 0) == DocRow(|m.history|, m.scr, 0))
            && (if m.sel.Active() && !m.sel.alt then SameRows(m.sel, |m.history|, m.scr, r.sel, |r.history|, r.scr, 0)
                else r.sel == m.sel)
  {
  }

  // ---------------------------------------------------------------------------------------------
  // Changing the height only.

  datatype Page = Page(history: seq<Cells>, screen: seq<Cells>, cy: nat) {
    predicate Valid() {
      |history| <= HISTSIZE && cy < |screen|
    }

    /** History rows and screen rows down to the cursor. */
    function Document(): seq<Cells>
      requires Valid()
    {
      history + screen[..cy + 1]
    }
  }

  /** Rows that must leave so that the cursor stays on a screen of the new height. */
  function Excess(p: Page, rows: nat): nat {
    if p.cy >= rows then p.cy - rows + 1 else 0
  }

  function SlideUp(p: Page, rows: nat, blank: Cells): (q: Page)
    requires p.Valid() && 0 < rows
    ensures q.Valid() && q.cy < rows && |q.screen| == |p.screen|
  {
    var n := Excess(p, rows);
    Page(LastN(p.history + p.screen[..n], HISTSIZE), ShiftUp(p.screen, 0, |p.screen| - 1, n, blank), p.cy - n)
  }

  function Growth(p: Page, rows: nat): nat {
    if rows <= |p.screen| then 0
    else if rows - |p.screen| <= |p.history| then rows - |p.screen|
    else |p.history|
  }

  /** The height-only branch of tresizedef. */
  function ResizeHeight(p: Page, rows: nat, blank: Cells, empty: Cells): (q: Page)
    requires p.Valid() && 0 < rows
    ensures q.Valid() && |q.screen| == rows
  {
    var s := SlideUp(p, rows, blank);
    var n := Growth(s, rows);
    Page(s.history[..|s.history| - n], Pulled(s.history, Resized(s.screen, rows, empty), s.cy, n), s.cy + n)
  }

  /** The same with the view and the selection. */
  function ResizeMain(m: Main, cy: nat, rows: nat, col: nat, blank: Cells, empty: Cells): Main
    requires |m.history| <= HISTSIZE && cy < |m.screen| && 0 < rows
  {
    var s := if cy >= rows then ScrollUp(m, 0, |m.screen| - 1, cy - rows + 1, true, col, blank) else m;
    var cy' := if cy >= rows then rows - 1 else cy;
    var g := Growth(Page(s.history, s.screen, cy'), rows);
    PullBack(s.(screen := Resized(s.screen, rows, empty)), cy', g)
  }

  lemma ResizeMainIsResizeHeight(m: Main, cy: nat, rows: nat, col: nat, blank: Cells, empty: Cells)
    requires |m.history| <= HISTSIZE && cy < |m.screen| && 0 < rows
    ensures var r, q := ResizeMain(m, cy, rows, col, blank, empty),
      ResizeHeight(Page(m.history, m.screen, cy), rows, blank, empty);
            r.history == q.history && r.screen == q.screen
  {
    var p := Page(m.history, m.screen, cy);
    var s := if cy >= rows then ScrollUp(m, 0, |m.screen| - 1, cy - rows + 1, true, col, blank) else m;
    var t := SlideUp(p, rows, blank);
    if cy < rows {
      assert p.screen[..0] == [] && p.history + [] == p.history;
      assert t == p;
    }
    assert s.history == t.history && s.screen == t.screen;
  }

  /** No operation lets the view start above the oldest row. */
  lemma ViewStaysInHistory(m: Main, top: nat, bot: nat, n: int, save: bool, col: nat, blank: Cells)
    requires top <= bot < |m.screen| && m.scr <= |m.history| <= HISTSIZE
    ensures var r := ScrollUp(m, top, bot, n, save, col, blank);
            r.scr <= |r.history| <= HISTSIZE && |r.screen| == |m.screen|
  {
  }

  lemma ResizedViewStaysInHistory(m: Main, cy: nat, rows: nat, col: nat, blank: Cells, empty: Cells)
    requires m.scr <= |m.history| <= HISTSIZE && cy < |m.screen| && 0 < rows
    ensures var r := ResizeMain(m, cy, rows, col, blank, empty);
            r.scr <= |r.history| <= HISTSIZE && |r.screen| == rows
  {
    if cy >= rows {
      ViewStaysInHistory(m, 0, |m.screen| - 1, cy - rows + 1, true, col, blank);
    }
  }

  /** A height change keeps the document, except that a full ring lets its oldest rows go. */
  lemma HeightKeepsDocument(p: Page, rows: nat, blank: Cells, empty: Cells)
    requires p.Valid() && 0 < rows
    ensures var q := ResizeHeight(p, rows, blank, empty);
            var lost := |p.history| + Excess(p, rows) - HISTSIZE;
            && (lost <= 0 ==> q.Document() == p.Document())
            && (lost > 0 ==>
              Excess(p, rows) > 0 && q.Document() == p.Document()[lost..] && |q.Document()| == HISTSIZE + rows)
  {
    hide Excess, SlideUp, Growth, Pulled, Resized;
    SlideKeepsDocument(p, rows, blank);
    PullKeepsDocument(SlideUp(p, rows, blank), rows, empty);
  }

  lemma SlideKeepsDocument(p: Page, rows: nat, blank: Cells)
    requires p.Valid() && 0 < rows
    ensures var s := SlideUp(p, rows, blank);
            var lost := |p.history| + Excess(p, rows) - HISTSIZE;
            && (lost <= 0 ==> s.Document() == p.Document())
            && (lost > 0 ==>
              Excess(p, rows) > 0 && s.Document() == p.Document()[lost..] && |s.Document()| == HISTSIZE + rows)
  {
    var n := Excess(p, rows);
    var s := SlideUp(p, rows, blank);
    assert p.Document() == p.history + p.screen[..n] + p.screen[n..p.cy + 1];
    assert s.screen[..s.cy + 1] == p.screen[n..p.cy + 1];
  }

  lemma PullKeepsDocument(s: Page, rows: nat, empty: Cells)
    requires s.Valid() && s.cy < rows
    ensures var n := Growth(s, rows);
            Page(s.history[..|s.history| - n], Pulled(s.history, Resized(s.screen, rows, empty), s.cy, n),
              s.cy + n).Document()
            == s.Document()
  {
  }

  /**
    * Exactly which rows: the cursor leaves its row only to stay on the screen, and then moves down by the growth,
    * as far as the history has rows for it. The rows below it stay where they are, so that growth takes the place
    * of that many rows just below the cursor; new rows are empty.
    */
  predicate Resizes(p: Page, q: Page, rows: nat, empty: Cells) {
    var y := if p.cy < rows then p.cy else rows - 1;
    var more := if rows > |p.screen| then rows - |p.screen| else 0;
    var g := if more < |p.history| then more else |p.history|;
    && q.cy == y + g && |q.history| == Capped(|p.history| + p.cy - y) - g && |q.screen| == rows
    && (forall i | q.cy < i < rows :: q.screen[i] == if i < |p.screen| then p.screen[i] else empty)
  }

  lemma HeightRows(p: Page, rows: nat, blank: Cells, empty: Cells)
    requires p.Valid() && 0 < rows
    ensures Resizes(p, ResizeHeight(p, rows, blank, empty), rows, empty)
  {
    SlidRows(p, rows, blank);
    var s := SlideUp(p, rows, blank);
    hide SlideUp, Resized, Pulled;
    ResizedRows(s.screen, rows, empty);
    PulledBelow(s.history, Resized(s.screen, rows, empty), s.cy, Growth(s, rows));
  }

  lemma SlidRows(p: Page, rows: nat, blank: Cells)
    requires p.Valid() && 0 < rows
    ensures var s, y := SlideUp(p, rows, blank), if p.cy < rows then p.cy else rows - 1;
            && s.cy == y && |s.history| == Capped(|p.history| + p.cy - y) && (p.cy < rows ==> s == p)
  {
    if p.cy < rows {
      assert p.history + p.screen[..0] == p.history;
      assert ShiftUp(p.screen, 0, |p.screen| - 1, 0, blank) == p.screen;
    }
  }

  lemma ResizedRows(s: seq<Cells>, rows: nat, empty: Cells)
    ensures forall i | 0 <= i < rows :: Resized(s, rows, empty)[i] == if i < |s| then s[i] else empty
  {
  }

  lemma PulledBelow(h: seq<Cells>, s: seq<Cells>, cy: nat, n: nat)
    requires n <= |h| && cy + n < |s|
    ensures forall i | cy + n < i < |s| :: Pulled(h, s, cy, n)[i] == s[i]
  {
  }

  datatype HeightChange = HeightChange(rows: nat, blank: Cells, empty: Cells)

  function ResizeHeights(p: Page, changes: seq<HeightChange>): (q: Page)
    requires p.Valid() && forall c | c in changes :: 0 < c.rows
    ensures q.Valid()
    decreases |changes|
  {
    if changes == [] then p
    else ResizeHeights(ResizeHeight(p, changes[0].rows, changes[0].blank, changes[0].empty), changes[1..])
  }

  /** d' is the newest part of d, and all of it unless d' is longer than the ring. */
  predicate Kept(d: seq<Cells>, d': seq<Cells>) {
    && |d'| <= |d| && d' == d[|d| - |d'|..]
    && (|d'| < |d| ==> |d'| > HISTSIZE)
  }

  lemma KeptTwice(a: seq<Cells>, b: seq<Cells>, c: seq<Cells>)
    requires Kept(a, b) && Kept(b, c)
    ensures Kept(a, c)
  {
  }

  lemma HeightKept(p: Page, rows: nat, blank: Cells, empty: Cells)
    requires p.Valid() && 0 < rows
    ensures Kept(p.Document(), ResizeHeight(p, rows, blank, empty).Document())
  {
    HeightKeepsDocument(p, rows, blank, empty);
  }

  /**
    * Over any sequence of height changes the document only ever loses rows from its old end, and keeps
    * more than HISTSIZE of them whenever it loses any.
    */
  lemma {:induction false} HeightsKeepDocument(p: Page, changes: seq<HeightChange>)
    requires p.Valid() && forall c | c in changes :: 0 < c.rows
    ensures Kept(p.Document(), ResizeHeights(p, changes).Document())
    decreases |changes|
  {
    if changes != [] {
      var c := changes[0];
      var q := ResizeHeight(p, c.rows, c.blank, c.empty);
      HeightKept(p, c.rows, c.blank, c.empty);
      HeightsKeepDocument(q, changes[1..]);
      KeptTwice(p.Document(), q.Document(), ResizeHeights(q, changes[1..]).Document());
    }
  }

  lemma ShrinkLastRow(p: Page, k: nat, b: Cells, e: Cells)
    requires p.Valid() && p.cy == |p.screen| - 1 && k < |p.screen|
    requires |p.history| + k <= HISTSIZE
    ensures ResizeHeight(p, |p.screen| - k, b, e) == Page(p.history + p.screen[..k], p.screen[k..], p.cy - k)
  {
    var rows := |p.screen| - k;
    var s := SlideUp(p, rows, b);
    assert s.history == p.history + p.screen[..k];
    assert Resized(s.screen, rows, e) == p.screen[k..];
    PulledNothing(s.history, p.screen[k..], s.cy);
  }

  lemma GrowLastRow(history: seq<Cells>, pulled: seq<Cells>, screen: seq<Cells>, b: Cells, e: Cells)
    requires |history| + |pulled| <= HISTSIZE && screen != []
    ensures ResizeHeight(Page(history + pulled, screen, |screen| - 1), |screen| + |pulled|, b, e)
            == Page(history, pulled + screen, |screen| + |pulled| - 1)
  {
    var p, rows, k := Page(history + pulled, screen, |screen| - 1), |screen| + |pulled|, |pulled|;
    var s := SlideUp(p, rows, b);
    assert s.history == history + pulled && s.screen == screen;
    var r := Resized(screen, rows, e);
    assert Pulled(s.history, r, s.cy, k) == pulled + screen;
    assert s.history[..|s.history| - k] == history;
  }

  /** With the cursor on the last row, shrinking by k rows and growing by k again is the identity. */
  lemma ShrinkThenGrow(p: Page, k: nat, b1: Cells, e1: Cells, b2: Cells, e2: Cells)
    requires p.Valid() && p.cy == |p.screen| - 1 && k < |p.screen|
    requires |p.history| + k <= HISTSIZE
    ensures ResizeHeight(ResizeHeight(p, |p.screen| - k, b1, e1), |p.screen|, b2, e2) == p
  {
    hide ResizeHeight;
    ShrinkLastRow(p, k, b1, e1);
    GrowLastRow(p.history, p.screen[..k], p.screen[k..], b2, e2);
    assert p.screen[..k] + p.screen[k..] == p.screen;
  }

  // ---------------------------------------------------------------------------------------------
  // The scrolled-back view and the selection.

  function RowShown(history: seq<Cells>, screen: seq<Cells>, scr: nat, y: int): Cells
    requires scr <= |history| && 0 <= DocRow(|history|, scr, y) < |history| + |screen|
  {
    (history + screen)[DocRow(|history|, scr, y)]
  }

  /** How far a saving scroll by n moves the rows under the view: not at all if the view can follow. */
  function Slip(scr: nat, n: nat): nat {
    if scr == 0 then n else scr + n - Capped(scr + n)
  }

  /**
    * After a saving scroll of the whole screen the view shows the rows it showed Slip(scr, n) further
    * down; scrolled back, with scr + n within the ring, every row of the view is unchanged.
    */
  lemma SavingScrollAndView(history: seq<Cells>, screen: seq<Cells>, scr: nat, n: nat, blank: Cells, y: int)
    requires |history| <= HISTSIZE && scr <= |history| && n <= |screen|
    requires 0 <= y && y + Slip(scr, n) < |screen|
    ensures var h, s := LastN(history + screen[..n], HISTSIZE), ShiftUp(screen, 0, |screen| - 1, n, blank);
            && ScrAfter(scr, n) <= |h|
            && RowShown(h, s, ScrAfter(scr, n), y) == RowShown(history, screen, scr, y + Slip(scr, n))
    ensures 0 < scr && scr + n <= HISTSIZE ==> Slip(scr, n) == 0
  {
    var h, s := LastN(history + screen[..n], HISTSIZE), ShiftUp(screen, 0, |screen| - 1, n, blank);
    var d, d' := history + screen, h + s;
    var gone := |history| + n - |h|;
    assert s == screen[n..] + Repeat(n, blank);
    assert forall i | 0 <= i < |d| - gone :: d'[i] == d[i + gone];
  }

  /** Scrolling the view (kscrollup, kscrolldown) and pulling rows back (rscrolldown). */
  lemma SelectionFollowsView(sel: Sel, histf: nat, scr: nat, scr': nat, n: nat)
    requires sel.Active() && !sel.alt && n <= histf
    ensures SameRows(sel, histf, scr, SelFollowing(sel, scr' - scr), histf, scr', 0)
    ensures SameRows(sel, histf, scr, if scr < n then SelFollowing(sel, n - scr) else sel,
                     histf - n, if scr < n then 0 else scr - n, 0)
  {
  }

  /**
    * After a saving scroll the selection is on the same rows of the document, of which `gone` were
    * dropped from the ring. It is removed exactly if it began on a dropped row and the view slipped.
    */
  lemma SelectionAfterSave(sel: Sel, histf: nat, scr: nat, n: nat)
    requires sel.Active() && !sel.alt && scr <= histf <= HISTSIZE
    requires 0 <= DocRow(histf, scr, sel.nby)
    ensures var histf', gone := Capped(histf + n), histf + n - Capped(histf + n);
            var sel' := SelAfterSave(sel, scr, n, histf');
            && (!sel'.Active() <==> DocRow(histf, scr, sel.nby) < gone && Slip(scr, n) > 0)
            && (sel'.Active() ==> SameRows(sel, histf, scr, sel', histf', ScrAfter(scr, n), gone))
  {
  }

  /**
    * The removal test is skipped when the view did not slip: a selection survives although it begins on
    * rows that left the ring. It happens exactly when the view follows and the rows are gone.
    */
  lemma SelectionBeginsOutside(sel: Sel, histf: nat, scr: nat, n: nat)
    requires sel.Active() && !sel.alt && scr <= histf <= HISTSIZE
    requires 0 <= DocRow(histf, scr, sel.nby)
    ensures var histf' := Capped(histf + n);
            var sel' := SelAfterSave(sel, scr, n, histf');
            (sel'.Active() && DocRow(histf', ScrAfter(scr, n), sel'.nby) < 0)
            <==> (0 < scr && scr + n <= HISTSIZE && sel.nby - scr + HISTSIZE < n)
  {
  }

  /** A full ring, a view scrolled back by one row, a selection beginning on the oldest row. */
  lemma SelectionOutsideWitness()
    ensures var y := 1 - HISTSIZE;
            var sel := Sel(0, y, 0, y, 0, y, 0, y, false, false, false);
            && DocRow(HISTSIZE, 1, sel.nby) == 0
            && SelAfterSave(sel, 1, 1, HISTSIZE).Active()
            && DocRow(HISTSIZE, ScrAfter(1, 1), SelAfterSave(sel, 1, 1, HISTSIZE).nby) == -1
  {
  }
}
