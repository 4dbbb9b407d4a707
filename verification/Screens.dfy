/**
  * The whole state of the main screen as a value, what every event makes of it, and what all runs keep.
  */
module Screens {
  import opened Glyphs
  import opened Placement
  import opened Printing
  import opened Ring
  import opened Scrollback
  import opened Selection
  import opened Strays
  import opened Tails
  import Rewrap

  /** What programs and the user can ask of the screen. */
  datatype Event =
    | Print(u: nat, wraps: bool) | Attr(fg: nat, bg: nat, attrs: nat)
    | Up(n: int) | Down(n: int) | NewLine(first: bool) | DeleteLine(n: int) | InsertLine(n: int)
    | DeleteChar(n: int) | InsertBlank(n: int)
    | Goto(x: int, y: int) | Region(t: int, b: int) | ViewUp(n: int) | ViewDown(n: int) | Resize(cols: nat, rows: nat)

  datatype Screen = Screen(
    main: Main, cy: nat, cx: nat, wrapNext: bool, wrapWidth: nat, top: nat, bot: nat, col: nat, fg: nat, bg: nat,
      attrs: nat)
  {
    predicate Valid() {
      && 0 < col && Wide(main.history, col) && Wide(main.screen, col) && |main.history| <= HISTSIZE
      && main.scr <= |main.history| && cx < col && cy < |main.screen| && top <= bot < |main.screen|
    }

    /** The WRAP bit is in the last column only, and a pending wrap means that the cursor is there. */
    predicate Neat() {
      Tidy(main) && (wrapNext ==> cx + 1 == col) && wrapWidth == 1
    }

    function Rows(): nat {
      |main.screen|
    }

    function BlankGlyph(): Glyph {
      Blank(fg, bg)
    }

    function BlankRow(): Cells {
      Blanks(col, BlankGlyph())
    }

    function Page(): Page {
      Scrollback.Page(main.history, main.screen, cy)
    }

    function Pen(): Pen {
      Printing.Pen(cy, cx, wrapNext)
    }
  }

  /** An event is possible unless it is a width change that would lose the cursor. */
  predicate Possible(v: Screen, e: Event)
    requires v.Valid()
  {
    e.Resize? ==> 0 < e.cols && 0 < e.rows && (e.cols != v.col ==> CursorInWindow(v.Page(), v.col, e.cols, e.rows))
  }

  // ---------------------------------------------------------------------------------------------
  // One event.

  function Typed(v: Screen, u: nat, wraps: bool): Screen
    requires v.Valid()
  {
    var m := Unselected(v.main, v.cy, v.cx);
    var p := Advanced(Target(v.Pen(), wraps, v.bot, v.Rows()), v.col);
    var g := Glyph(u, true, false, v.attrs, v.fg, v.bg);
    v.(main := Printed(m, v.Pen(), wraps, v.top, v.bot, v.col, v.BlankRow(), g),
       cy := p.y, cx := p.x, wrapNext := p.wrapNext, wrapWidth := if p.wrapNext then 1 else v.wrapWidth)
  }

  /** A row of the screen that is edited from column x1 on; a selection that touches columns x1 to x2 goes. */
  function EditRow(v: Screen, row: Cells, x1: nat, x2: nat): Screen
    requires v.Valid()
  {
    var m := v.main;
    var sel := if m.sel.Touches(x1 + m.scr, v.cy + m.scr, x2 + m.scr, v.cy + m.scr) then m.sel.Remove() else m.sel;
    v.(main := m.(screen := m.screen[v.cy := row], sel := sel))
  }

  function Deleted(v: Screen, n: int): Screen
    requires v.Valid()
  {
    if n <= 0 then v
    else EditRow(v, DeleteChars(v.main.screen[v.cy], v.cx, n, v.BlankGlyph()), v.col - Least(n, v.col - v.cx),
      v.col - 1)
  }

  function Inserted(v: Screen, n: int): Screen
    requires v.Valid()
  {
    if n <= 0 then v
    else EditRow(v, InsertBlanks(v.main.screen[v.cy], v.cx, n, v.BlankGlyph()), v.cx, v.cx + Least(n, v.col - v.cx) - 1)
  }

  /** How far a scroll request of the user goes; a negative argument is a fraction of the screen. */
  function Request(n: int, rows: nat): (r: nat)
  {
    if n >= 0 then n else if rows / (0 - n) > 1 then rows / (0 - n) else 1
  }

  function Viewed(m: Main, scr: nat): Main {
    m.(scr := scr, sel := SelFollowing(m.sel, scr - m.scr))
  }

  function Heightened(v: Screen, rows: nat): Screen
    requires v.Valid() && 0 < rows
  {
    var empty := Blanks(v.col, EMPTY);
    v.(main := ResizeMain(v.main, v.cy, rows, v.col, v.BlankRow(), empty),
       cy := ResizeHeight(v.Page(), rows, v.BlankRow(), empty).cy, top := 0, bot := rows - 1)
  }

  function Reflowed(v: Screen, cols: nat, rows: nat): Screen
    requires v.Valid() && Reflowable(v.Page(), v.cx, v.col, cols, rows)
  {
    var p := PlanReflow(v.Page(), v.cx, v.col, cols, rows);
    var c := Resolved(p.spot.y, p.spot.x, v.wrapNext, v.wrapWidth, cols);
    var h := NewHistory(p.out, p.place);
    var sel := if v.main.sel.alt then v.main.sel else v.main.sel.Remove();
    v.(main := Main(h, NewScreen(p.out, p.place, rows, Blanks(cols, EMPTY)), Min(v.main.scr, |h|), sel),
       cy := p.place.cy, cx := c.x, wrapNext := c.wrapNext, top := 0, bot := rows - 1, col := cols)
  }

  function Clamp(x: int, n: nat): (y: nat)
    requires 0 < n
    ensures y < n
  {
    Min(Max(x, 0), n - 1)
  }

  function LineFed(v: Screen, first: bool): Screen
    requires v.Valid()
  {
    v.(main := LineFeed(v.main, v.top, v.bot, v.cy, v.col, v.BlankRow()), cy := RowBelow(v.cy, v.bot, v.Rows()),
       cx := if first then 0 else v.cx, wrapNext := false)
  }

  function Gone(v: Screen, x: int, y: int): Screen
    requires v.Valid()
  {
    v.(cx := Clamp(x, v.col), cy := Clamp(y, v.Rows()), wrapNext := false)
  }

  function Bounded(v: Screen, t: int, b: int): Screen
    requires v.Valid()
  {
    var t', b' := Clamp(t, v.Rows()), Clamp(b, v.Rows());
    v.(top := Min(t', b'), bot := Max(t', b'))
  }

  function Apply(v: Screen, e: Event): Screen
    requires v.Valid() && Possible(v, e)
  {
    var m, blank := v.main, v.BlankRow();
    match e
    case Print(u, wraps) => Typed(v, u, wraps)
    case Attr(f, b, a) => v.(fg := f, bg := b, attrs := a)
    case Up(n) => v.(main := ScrollUp(m, v.top, v.bot, n, true, v.col, blank))
    case Down(n) => v.(main := ScrollDown(m, v.top, v.bot, n, v.col, blank))
    case NewLine(first) => LineFed(v, first)
    case DeleteLine(n) =>
      if v.top <= v.cy <= v.bot then v.(main := ScrollUp(m, v.cy, v.bot, n, false, v.col, blank)) else v
    case InsertLine(n) =>
      if v.top <= v.cy <= v.bot then v.(main := ScrollDown(m, v.cy, v.bot, n, v.col, blank)) else v
    case DeleteChar(n) => Deleted(v, n)
    case InsertBlank(n) => Inserted(v, n)
    case Goto(x, y) => Gone(v, x, y)
    case Region(t, b) => Bounded(v, t, b)
    case ViewUp(n) => v.(main := Viewed(m, Min(m.scr + Request(n, v.Rows()), |m.history|)))
    case ViewDown(n) => v.(main := Viewed(m, Max(m.scr - Request(n, v.Rows()), 0)))
    case Resize(cols, rows) =>
      if cols != v.col then Reflowed(v, cols, rows)
      else if rows != v.Rows() then Heightened(v, rows)
      else v
  }

  // ---------------------------------------------------------------------------------------------
  // What every event keeps.

  lemma DrawnWide(s: seq<Cells>, from: seq<Cells>, blank: Cells, col: nat)
    requires Drawn(s, from, blank) && Wide(from, col) && |blank| == col
    ensures Wide(s, col)
  {
  }

  lemma ScrollUpValid(v: Screen, top: nat, n: int, save: bool)
    requires v.Valid() && top <= v.bot
    ensures v.(main := ScrollUp(v.main, top, v.bot, n, save, v.col, v.BlankRow())).Valid()
  {
    var m, blank := v.main, v.BlankRow();
    var r := ScrollUp(m, top, v.bot, n, save, v.col, blank);
    ViewStaysInHistory(m, top, v.bot, n, save, v.col, blank);
    assert Drawn(r.screen, m.screen, blank) && Drawn(r.history, m.history + m.screen, blank);
    DrawnWide(r.screen, m.screen, blank, v.col);
    DrawnWide(r.history, m.history + m.screen, blank, v.col);
  }

  lemma ScrollDownValid(v: Screen, top: nat, n: int)
    requires v.Valid() && top <= v.bot
    ensures v.(main := ScrollDown(v.main, top, v.bot, n, v.col, v.BlankRow())).Valid()
  {
    var m, blank := v.main, v.BlankRow();
    var r := ScrollDown(m, top, v.bot, n, v.col, blank);
    assert Drawn(r.screen, m.screen, blank);
    DrawnWide(r.screen, m.screen, blank, v.col);
  }

  lemma TypedValid(v: Screen, u: nat, wraps: bool)
    requires v.Valid()
    ensures Typed(v, u, wraps).Valid()
  {
    var m, p := Unselected(v.main, v.cy, v.cx), v.Pen();
    var r := Typed(v, u, wraps);
    OpeningWide(m, p, wraps, v.top, v.bot, v.col, v.BlankRow());
    if wraps && v.wrapNext {
      var k := m.(screen := Mark(m.screen, v.cy, v.cx));
      assert Wide(k.screen, v.col);
      if v.cy == v.bot {
        ScrollUpValid(v.(main := k), v.top, 1, true);
      }
    }
  }

  lemma EditedValid(v: Screen, n: int)
    requires v.Valid()
    ensures Deleted(v, n).Valid() && Inserted(v, n).Valid()
  {
    hide DeleteChars, InsertBlanks;
  }

  lemma HeightenedValid(v: Screen, rows: nat)
    requires v.Valid() && 0 < rows
    ensures Heightened(v, rows).Valid() && Heightened(v, rows).Rows() == rows
  {
    var empty := Blanks(v.col, EMPTY);
    var r := ResizeMain(v.main, v.cy, rows, v.col, v.BlankRow(), empty);
    ResizedViewStaysInHistory(v.main, v.cy, rows, v.col, v.BlankRow(), empty);
    ResizeMainIsResizeHeight(v.main, v.cy, rows, v.col, v.BlankRow(), empty);
    HeightWide(v.Page(), v.col, rows, v.BlankRow(), empty);
  }

  lemma SlideWide(p: Page, col: nat, rows: nat, blank: Cells)
    requires p.Valid() && 0 < rows && Wide(p.history, col) && Wide(p.screen, col) && |blank| == col
    ensures Wide(SlideUp(p, rows, blank).history, col) && Wide(SlideUp(p, rows, blank).screen, col)
  {
    var s := SlideUp(p, rows, blank);
    assert Drawn(s.screen, p.screen, blank);
    assert Drawn(s.history, p.history + p.screen, blank);
    hide SlideUp, Drawn;
    DrawnWide(s.screen, p.screen, blank, col);
    DrawnWide(s.history, p.history + p.screen, blank, col);
  }

  lemma ResizedWide(s: seq<Cells>, col: nat, rows: nat, empty: Cells)
    requires Wide(s, col) && |empty| == col
    ensures Wide(Resized(s, rows, empty), col)
  {
  }

  lemma PulledWide(h: seq<Cells>, s: seq<Cells>, col: nat, cy: nat, n: nat)
    requires Wide(h, col) && Wide(s, col) && n <= |h| && cy + n < |s|
    ensures Wide(h[..|h| - n], col) && Wide(Pulled(h, s, cy, n), col)
  {
  }

  lemma HeightWide(p: Page, col: nat, rows: nat, blank: Cells, empty: Cells)
    requires p.Valid() && 0 < rows && Wide(p.history, col) && Wide(p.screen, col) && |blank| == |empty| == col
    ensures var q := ResizeHeight(p, rows, blank, empty); Wide(q.history, col) && Wide(q.screen, col) && q.cy < rows
  {
    hide Wide, SlideUp, Resized, Pulled;
    var s := SlideUp(p, rows, blank);
    var r := Resized(s.screen, rows, empty);
    SlideWide(p, col, rows, blank);
    ResizedWide(s.screen, col, rows, empty);
    PulledWide(s.history, r, col, s.cy, Growth(s, rows));
  }

  lemma ReflowedValid(v: Screen, cols: nat, rows: nat)
    requires v.Valid() && Reflowable(v.Page(), v.cx, v.col, cols, rows)
    ensures Reflowed(v, cols, rows).Valid() && Reflowed(v, cols, rows).Rows() == rows
  {
    hide PlanReflow, Reflowable, Rewrap.SameCell, Rewrap.Result;
    var p := PlanReflow(v.Page(), v.cx, v.col, cols, rows);
    var empty := Blanks(cols, EMPTY);
    assert Drawn(NewScreen(p.out, p.place, rows, empty), p.out, empty);
    DrawnWide(NewScreen(p.out, p.place, rows, empty), p.out, empty, cols);
  }

  /** Every event keeps the screen well formed: the cursor and the region on it, the view within the history. */
  lemma ApplyValid(v: Screen, e: Event)
    requires v.Valid() && Possible(v, e)
    ensures Apply(v, e).Valid()
  {
    hide ScrollUp, ScrollDown, Typed, Deleted, Inserted, Heightened, Reflowed, CursorInWindow, Wide;
    match e
    case Print(u, wraps) => TypedValid(v, u, wraps);
    case Up(n) => ScrollUpValid(v, v.top, n, true);
    case Down(n) => ScrollDownValid(v, v.top, n);
    case NewLine(first) => ScrollUpValid(v, v.top, 1, true);
    case DeleteLine(n) =>
      if v.top <= v.cy <= v.bot {
        ScrollUpValid(v, v.cy, n, false);
      }
    case InsertLine(n) =>
      if v.top <= v.cy <= v.bot {
        ScrollDownValid(v, v.cy, n);
      }
    case DeleteChar(n) => EditedValid(v, n);
    case InsertBlank(n) => EditedValid(v, n);
    case Resize(cols, rows) =>
      if cols != v.col {
        ReflowedValid(v, cols, rows);
      } else if rows != v.Rows() {
        HeightenedValid(v, rows);
      }
    case _ =>
  }

  // ---------------------------------------------------------------------------------------------
  // WRAP bits.

  /** The event moves the WRAP bit of the cursor's row away from the last column. */
  predicate Dislodging(v: Screen, e: Event)
    requires v.Valid()
  {
    e.DeleteChar? && Dislodges(v.main.screen[v.cy], v.cx, e.n)
  }

  lemma TypedNeat(v: Screen, u: nat, wraps: bool)
    requires v.Valid() && v.Neat()
    ensures Typed(v, u, wraps).Neat()
  {
    var m, p, blank := Unselected(v.main, v.cy, v.cx), v.Pen(), v.BlankRow();
    var o, t := Opening(m, p, wraps, v.top, v.bot, v.col, blank), Target(p, wraps, v.bot, v.Rows());
    OpeningWide(m, p, wraps, v.top, v.bot, v.col, blank);
    if wraps && v.wrapNext {
      MarkTidy(m.screen, v.cy, v.cx, v.col);
      ScrollUpTidy(m.(screen := Mark(m.screen, v.cy, v.cx)), v.top, v.bot, 1, true, v.col, blank);
    }
    hide ScrollUp, Rewrap.Clean;
    PutTidy(o.screen, t.y, t.x, Glyph(u, true, false, v.attrs, v.fg, v.bg));
  }

  lemma RowTidy(screen: seq<Cells>, y: nat, row: Cells)
    requires y < |screen| && Rewrap.Clean(screen)
    ensures Rewrap.CleanRow(screen[y])
    ensures Rewrap.Clean(screen[y := row]) <==> Rewrap.CleanRow(row)
  {
    if Rewrap.Clean(screen[y := row]) {
      assert Rewrap.CleanRow(screen[y := row][y]);
    }
  }

  lemma EditedNeat(v: Screen, n: int)
    requires v.Valid() && v.Neat()
    ensures Inserted(v, n).Neat()
    ensures Deleted(v, n).Neat() <==> !Dislodges(v.main.screen[v.cy], v.cx, n)
  {
    hide DeleteChars, InsertBlanks, Rewrap.Clean, Rewrap.CleanRow;
    var row, g := v.main.screen[v.cy], v.BlankGlyph();
    RowTidy(v.main.screen, v.cy, DeleteChars(row, v.cx, n, g));
    RowTidy(v.main.screen, v.cy, InsertBlanks(row, v.cx, n, g));
    DeletionKeepsClean(row, v.cx, n, g);
    InsertionKeepsClean(row, v.cx, n, g);
  }

  /** The only event that leaves a WRAP bit in front of the last column is a deletion in a row that goes on. */
  lemma ApplyNeat(v: Screen, e: Event)
    requires v.Valid() && Possible(v, e) && v.Neat()
    ensures Apply(v, e).Neat() <==> !Dislodging(v, e)
  {
    hide ScrollUp, ScrollDown, Typed, Deleted, Inserted, ResizeMain, PlanReflow, Wide, Rewrap.Clean, Dislodges;
    var m, blank := v.main, v.BlankRow();
    match e
    case Print(u, wraps) => TypedNeat(v, u, wraps);
    case Up(n) => ScrollUpTidy(m, v.top, v.bot, n, true, v.col, blank);
    case Down(n) => ScrollDownTidy(m, v.top, v.bot, n, v.col, blank);
    case NewLine(first) => ScrollUpTidy(m, v.top, v.bot, 1, true, v.col, blank);
    case DeleteLine(n) =>
      if v.top <= v.cy <= v.bot {
        ScrollUpTidy(m, v.cy, v.bot, n, false, v.col, blank);
      }
    case InsertLine(n) =>
      if v.top <= v.cy <= v.bot {
        ScrollDownTidy(m, v.cy, v.bot, n, v.col, blank);
      }
    case DeleteChar(n) => EditedNeat(v, n);
    case InsertBlank(n) => EditedNeat(v, n);
    case Resize(cols, rows) =>
      if cols != v.col {
        ReflowTidy(v.Page(), v.cx, v.col, cols, rows, Blanks(cols, EMPTY));
      } else if rows != v.Rows() {
        ResizeMainTidy(m, v.cy, rows, v.col, blank, Blanks(v.col, EMPTY));
      }
    case _ =>
  }

  // ---------------------------------------------------------------------------------------------
  // Runs.

  predicate PossibleRun(v: Screen, es: seq<Event>)
    decreases |es|
  {
    v.Valid() && (es == [] || (Possible(v, es[0]) && PossibleRun(Apply(v, es[0]), es[1..])))
  }

  function After(v: Screen, es: seq<Event>): Screen
    requires PossibleRun(v, es)
    decreases |es|
  {
    if es == [] then v else After(Apply(v, es[0]), es[1..])
  }

  /** No event of the run dislodges a WRAP bit. */
  predicate Careful(v: Screen, es: seq<Event>)
    requires PossibleRun(v, es)
    decreases |es|
  {
    es == [] || (!Dislodging(v, es[0]) && Careful(Apply(v, es[0]), es[1..]))
  }

  /** Over any run the screen is well formed, and WRAP bits stay in the last column if no deletion moves one. */
  lemma {:induction false} RunKeeps(v: Screen, es: seq<Event>)
    requires PossibleRun(v, es)
    ensures After(v, es).Valid()
    ensures v.Neat() && Careful(v, es) ==> After(v, es).Neat()
    decreases |es|
  {
    hide Apply, Screen.Neat, Dislodging;
    if es != [] {
      if v.Neat() {
        ApplyNeat(v, es[0]);
      }
      RunKeeps(Apply(v, es[0]), es[1..]);
    }
  }

  /**
    * So the text of a neat screen survives every width change, from the oldest row that was read and that the
    * ring can hold, as long as the part of the cursor's line behind the cursor fits on the screen.
    */
  lemma NeatResizeKeepsLines(v: Screen, cols: nat, rows: nat)
    requires v.Valid() && v.Neat() && Possible(v, Resize(cols, rows)) && cols != v.col
    ensures var p, m := PlanReflow(v.Page(), v.cx, v.col, cols, rows), Apply(v, Resize(cols, rows)).main;
            var was, now := Rewrap.Lines(OldRows(v.Page())), Rewrap.Lines(NewRows(p, rows, Blanks(cols, EMPTY)));
            && NewRows(p, rows, Blanks(cols, EMPTY)) <= m.history + m.screen
            && (p.place.ny == |p.out| - 1 ==> TailLines(now, was))
            && (p.place.ny == |p.out| - 1 && NothingLost(v.Page(), v.cx, v.col, cols, rows) ==> now == was)
  {
    hide PlanReflow, NewHistory, NewScreen, Rewrap.Lines, NothingLost, OldRows, TailLines, Rewrap.SameCell;
    assert Rewrap.Clean(v.main.history + v.main.screen);
    ReflowKeepsDocument(v.Page(), v.cx, v.col, cols, rows, Blanks(cols, EMPTY));
  }

  // ---------------------------------------------------------------------------------------------
  // Where the next character goes after a width change.

  lemma BeforeNext(rows: seq<Cells>, y: nat, x: nat)
    requires y < |rows| && x < |rows[y]|
    ensures Rewrap.Before(rows, y, x + 1) == Rewrap.Write(Rewrap.Before(rows, y, x), [rows[y][x]])
  {
    hide Rewrap.ReadText;
    assert rows[y][..x + 1] == rows[y][..x] + [rows[y][x]];
    Rewrap.WriteCompose(Rewrap.ReadText(rows[..y]), rows[y][..x], [rows[y][x]]);
  }

  lemma WritePlain(t: Rewrap.Text, a: Glyph, b: Glyph)
    requires Rewrap.Plain(a) == Rewrap.Plain(b)
    ensures Rewrap.Write(t, [a]) == Rewrap.Write(t, [b])
  {
    assert Rewrap.PlainAll([a]) == Rewrap.PlainAll([b]);
  }

  /** The text in front of the place of the next character, from that in front of the cursor. */
  lemma TextAtPen(m: Main, p: Pen, d: seq<Cells>, n: nat)
    requires p.y < |m.screen| && p.x < |m.screen[p.y]| && |m.history| + p.y < n <= |m.history| + |m.screen|
    requires d == (m.history + m.screen)[..n]
    ensures var t := Rewrap.Before(d, |m.history| + p.y, p.x);
      TextAt(m, p) == if p.wrapNext then Rewrap.Write(t, [m.screen[p.y][p.x]]) else t
  {
    hide Rewrap.Before, Rewrap.Write;
    var doc := m.history + m.screen;
    assert doc[|m.history| + p.y] == m.screen[p.y];
    BeforeInPrefix(doc, n, |m.history| + p.y, p.x);
    BeforeNext(doc, |m.history| + p.y, p.x);
  }

  /** The cursor after a width change, with a wrap that is no longer pending in a wider row carried out. */
  lemma ReflowedPen(v: Screen, cols: nat, rows: nat)
    requires v.Valid() && v.Neat() && Reflowable(v.Page(), v.cx, v.col, cols, rows)
    ensures var p, w := PlanReflow(v.Page(), v.cx, v.col, cols, rows), Reflowed(v, cols, rows);
      && w.cy == p.place.cy && w.cx < cols && w.cy < |w.main.screen| && |w.main.screen[w.cy]| == cols
      && p.spot.x < cols && TextAt(w.main, w.Pen()) == TextAt(w.main, Printing.Pen(w.cy, p.spot.x, v.wrapNext))
  {
    hide PlanReflow, NewHistory, NewScreen, Rewrap.SameCell, Rewrap.Before;
    ReflowedValid(v, cols, rows);
  }

  /**
    * So what is printed next goes behind the same text, whether or not a wrap is pending, and whether or not it
    * still is: of that text only the beginning can be missing, and nothing is when no row read is lost.
    */
  lemma ResizeKeepsTextAtPen(v: Screen, cols: nat, rows: nat)
    requires v.Valid() && v.Neat() && Possible(v, Resize(cols, rows)) && cols != v.col
    ensures var w := Apply(v, Resize(cols, rows));
      && w.Valid() && TailText(TextAt(w.main, w.Pen()), TextAt(v.main, v.Pen()))
      && (NothingLost(v.Page(), v.cx, v.col, cols, rows) ==> TextAt(w.main, w.Pen()) == TextAt(v.main, v.Pen()))
  {
    hide PlanReflow, NewHistory, NewScreen, TextAt, TailText, NothingLost, Rewrap.SameCell, Rewrap.Before, LineEnd,
      Rewrap.Write, Rewrap.Plain;
    assert Rewrap.Clean(v.main.history + v.main.screen);
    ReflowedValid(v, cols, rows);
    ReflowedPen(v, cols, rows);
    var m, empty, p := v.Page(), Blanks(cols, EMPTY), PlanReflow(v.Page(), v.cx, v.col, cols, rows);
    var w := Reflowed(v, cols, rows);
    var pen := Printing.Pen(w.cy, p.spot.x, v.wrapNext);
    ReflowKeepsTextBeforeCursor(m, v.cx, v.col, cols, rows, empty);
    ReflowKeepsCursorCell(m, v.cx, v.col, cols, rows, empty);
    TextAtPen(v.main, v.Pen(), OldRows(m), |m.history| + LineEnd(m.screen, m.cy) + 1);
    NewRowsPrefix(p, rows, empty);
    TextAtPen(w.main, pen, NewRows(p, rows, empty), |NewHistory(p.out, p.place)| + p.place.nce + 1);
    var was, now := TextBefore(m, v.cx), TextAfter(p, rows, empty);
    TailWrite(now, was, [w.main.screen[w.cy][p.spot.x]]);
    WritePlain(was, w.main.screen[w.cy][p.spot.x], m.screen[m.cy][v.cx]);
  }

  lemma NewRowsPrefix(p: Plan, rows: nat, empty: Cells)
    requires 0 <= p.place.nce < rows && p.place.nce <= p.place.ny < |p.out|
    ensures var h, s := NewHistory(p.out, p.place), NewScreen(p.out, p.place, rows, empty);
      NewRows(p, rows, empty) == (h + s)[..|h| + p.place.nce + 1]
  {
    hide NewHistory, NewScreen;
  }
}
