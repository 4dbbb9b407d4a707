/**
  * What each event does to the screen, row by row and cell by cell, without the functions that compute it.
  */
module Effects {
  import opened Glyphs
  import opened Placement
  import opened Printing
  import opened Ring
  import opened Scrollback
  import opened Screens
  import opened Selection
  import opened Strays
  import Rewrap

  type Event = Screens.Event

  predicate Scrolls(e: Event) {
    e.Up? || e.Down? || e.DeleteLine? || e.InsertLine?
  }

  /** Where the region of a scroll begins: the lines at the cursor are deleted and inserted, if it is in the region. */
  function From(v: Screen, e: Event): nat {
    if e.Up? || e.Down? then v.top else if v.top <= v.cy <= v.bot then v.cy else v.bot + 1
  }

  /** The rows of the screen after those from `from` to v.bot have moved by d, with blank ones coming in. */
  predicate Shifted(v: Screen, s: seq<Rewrap.Cells>, from: nat, d: int)
    requires v.Valid()
  {
    Moved(v.main.screen, s, from, v.bot, d, v.BlankRow())
  }

  lemma ShiftedUp(v: Screen, from: nat, n: int, save: bool)
    requires v.Valid() && from <= v.bot
    ensures var r := ScrollUp(v.main, from, v.bot, n, save, v.col, v.BlankRow());
            && Shifted(v, r.screen, from, if n > 0 then n else 0)
            && (!save || from > 0 || n <= 0 ==> r.history == v.main.history && r.scr == v.main.scr)
  {
    hide SaveScroll, DropScroll, Moved;
    ScrollUpRows(v.main, from, v.bot, n, save, v.col, v.BlankRow());
  }

  lemma ShiftedDown(v: Screen, from: nat, n: int)
    requires v.Valid() && from <= v.bot
    ensures var r := ScrollDown(v.main, from, v.bot, n, v.col, v.BlankRow());
            && Shifted(v, r.screen, from, if n > 0 then 0 - n else 0)
            && r.history == v.main.history && r.scr == v.main.scr
  {
    ScrollDownRows(v.main, from, v.bot, n, v.col, v.BlankRow());
  }

  /**
    * Scrolls, and lines deleted or inserted: a row of the region is the one n below it, or above it, and blank if
    * that is outside. Nothing else on the screen changes, and only rows scrolled off its top are saved.
    */
  lemma ScrolledRows(v: Screen, e: Event)
    requires v.Valid() && Scrolls(e)
    ensures var w, n := Apply(v, e), if e.n > 0 then e.n else 0;
            var d := if e.Up? || e.DeleteLine? then n else 0 - n;
            && Shifted(v, w.main.screen, From(v, e), d)
            && w == v.(main := w.main)
            && (!e.Up? || v.top > 0 || n == 0 ==> w.main.history == v.main.history && w.main.scr == v.main.scr)
  {
    hide ScrollUp, ScrollDown;
    match e
    case Up(n) => ShiftedUp(v, v.top, n, true);
    case Down(n) => ShiftedDown(v, v.top, n);
    case DeleteLine(n) =>
      if v.top <= v.cy <= v.bot {
        ShiftedUp(v, v.cy, n, false);
      }
    case InsertLine(n) =>
      if v.top <= v.cy <= v.bot {
        ShiftedDown(v, v.cy, n);
      }
  }

  /**
    * A new line scrolls the region by one row if the cursor is on its last row; else the cursor goes a row down,
    * if there is one.
    */
  lemma NewLineIs(v: Screen, first: bool)
    requires v.Valid()
    ensures var w := Apply(v, NewLine(first));
            && w.main == (if v.cy == v.bot then Apply(v, Up(1)).main else v.main)
            && w.cy == (if v.cy == v.bot || v.cy + 1 == v.Rows() then v.cy else v.cy + 1)
            && w.cx == (if first then 0 else v.cx) && !w.wrapNext
            && w == v.(main := w.main, cy := w.cy, cx := w.cx, wrapNext := false)
  {
    hide ScrollUp;
  }

  function Distance(a: int, b: int): nat {
    if a < b then b - a else a - b
  }

  /** The cursor goes to the nearest cell of the screen, and no wrap is pending there. */
  lemma GotoNearest(v: Screen, x: int, y: int, x': nat, y': nat)
    requires v.Valid() && x' < v.col && y' < v.Rows()
    ensures var w := Apply(v, Goto(x, y));
            && Distance(w.cx, x) <= Distance(x', x) && Distance(w.cy, y) <= Distance(y', y)
            && w == v.(cx := w.cx, cy := w.cy, wrapNext := false)
  {
  }

  /** The region lies between the rows nearest to the two that were asked for, whichever comes first. */
  lemma RegionBetween(v: Screen, t: int, b: int)
    requires v.Valid()
    ensures var w, p, q := Apply(v, Region(t, b)), Apply(v, Goto(0, t)).cy, Apply(v, Goto(0, b)).cy;
            && w.top <= w.bot && multiset{w.top, w.bot} == multiset{p, q} && w == v.(top := w.top, bot := w.bot)
  {
  }

  /** A row of the view, when it is scrolled by d rows into the history. */
  ghost predicate ShownMoved(m: Main, r: Main, d: int)
    requires m.scr <= |m.history| && r.scr <= |r.history|
  {
    forall y: int | 0 <= DocRow(|m.history|, m.scr, y) < |m.history| + |m.screen| ::
      0 <= DocRow(|r.history|, r.scr, y + d) < |r.history| + |r.screen|
      && RowShown(r.history, r.screen, r.scr, y + d) == RowShown(m.history, m.screen, m.scr, y)
  }

  /**
    * The view moves by as many rows as asked for, or to the end: every row that it shows stands that much lower,
    * or higher. A negative request asks for that fraction of the screen, and at least for a row.
    */
  lemma ViewMoves(v: Screen, n: int, up: bool)
    requires v.Valid()
    ensures var w := Apply(v, if up then ViewUp(n) else ViewDown(n));
            var d := w.main.scr - v.main.scr;
            && w == v.(main := w.main) && w.main.scr <= |w.main.history| && ShownMoved(v.main, w.main, d)
            && (if up then 0 <= d else d <= 0)
            && (Distance(d, 0) == Request(n, v.Rows()) ||
              (Distance(d, 0) < Request(n, v.Rows()) && w.main.scr == if up then |w.main.history| else 0))
    ensures n >= 0 ==> Request(n, v.Rows()) == n
    ensures n < 0 ==> Request(n, v.Rows()) > 0
    ensures n < 0 && Request(n, v.Rows()) > 1 ==> Fraction(Request(n, v.Rows()), 0 - n, v.Rows())
  {
    if n < 0 {
      Divided(v.Rows(), 0 - n);
    }
  }

  /** The selection stays on its rows, wherever the view goes. */
  lemma ViewCarriesSelection(v: Screen, n: int, up: bool)
    requires v.Valid()
    ensures var w, m := Apply(v, if up then ViewUp(n) else ViewDown(n)), v.main;
            if m.sel.Active() && !m.sel.alt then
              SameRows(m.sel, |m.history|, m.scr, w.main.sel, |w.main.history|, w.main.scr, 0)
            else w.main.sel == m.sel
  {
    hide Request;
  }

  /** r is a k-th of n, rounded down. */
  predicate Fraction(r: nat, k: nat, n: nat) {
    r * k <= n < (r + 1) * k
  }

  lemma Divided(n: nat, k: nat)
    requires k > 0
    ensures Fraction(n / k, k, n)
  {
    var q := n / k;
    assert n == q * k + n % k && (q + 1) * k == q * k + k;
  }

  /** The row with characters deleted at column x: those behind them move up, and blanks come in at the end. */
  lemma DeletedCells(row: Rewrap.Cells, x: nat, n: int, blank: Glyph)
    requires x < |row|
    ensures var r, d := DeleteChars(row, x, n, blank), if n > 0 then n else 0;
            forall i | 0 <= i < |row| :: r[i] == if i < x then row[i] else if i + d < |row| then row[i + d] else blank
  {
  }

  /** With blanks inserted the characters from column x on move back. */
  lemma InsertedCells(row: Rewrap.Cells, x: nat, n: int, blank: Glyph)
    requires x < |row|
    ensures var r, d := InsertBlanks(row, x, n, blank), if n > 0 then n else 0;
            forall i | 0 <= i < |row| :: r[i] == if i < x then row[i] else if i - d >= x then row[i - d] else blank
  {
  }

  /** So deleting the blanks again restores the row, but for the characters that were pushed over its end. */
  lemma InsertThenDelete(row: Rewrap.Cells, x: nat, n: nat, blank: Glyph)
    requires x < |row| && x + n <= |row|
    ensures DeleteChars(InsertBlanks(row, x, n, blank), x, n, blank) == row[..|row| - n] + Blanks(n, blank)
  {
    var t := InsertBlanks(row, x, n, blank);
    var r := DeleteChars(t, x, n, blank);
    InsertedCells(row, x, n, blank);
    DeletedCells(t, x, n, blank);
    forall i | 0 <= i < |row| ensures r[i] == if i < |row| - n then row[i] else blank {
      if x <= i && i + n < |row| {
        assert t[i + n] == row[i + n - n];
      } else if i < x {
        assert t[i] == row[i];
      }
    }
  }

  /** Deleting and inserting characters changes only the cursor's row, from the cursor on. */
  lemma EditedRow(v: Screen, e: Event)
    requires v.Valid() && (e.DeleteChar? || e.InsertBlank?)
    ensures var w, row := Apply(v, e), v.main.screen[v.cy];
            var r := if e.DeleteChar? then DeleteChars(row, v.cx, e.n, v.BlankGlyph())
                     else InsertBlanks(row, v.cx, e.n, v.BlankGlyph());
            && w.main.screen == v.main.screen[v.cy := r]
            && w == v.(main := v.main.(screen := w.main.screen, sel := w.main.sel))
    ensures var w, m := Apply(v, e), v.main;
            var k := if e.n < v.col - v.cx then e.n else v.col - v.cx;
            var x1 := if e.DeleteChar? then v.col - k else v.cx;
            w.main.sel ==
              if e.n > 0 && m.sel.Touches(x1 + m.scr, v.cy + m.scr, x1 + k - 1 + m.scr, v.cy + m.scr)
              then m.sel.Remove() else m.sel
  {
  }

  /**
    * Without a wrap to carry out a character is stored under the cursor, with the present attributes and colours;
    * no other cell changes, and the cursor moves to the next column or has a wrap pending in the last one.
    */
  lemma TypedCell(v: Screen, u: nat, wraps: bool)
    requires v.Valid() && !(wraps && v.wrapNext)
    ensures var w := Apply(v, Print(u, wraps));
            && w.main.history == v.main.history && w.main.scr == v.main.scr
            && w.main.screen == v.main.screen[v.cy := v.main.screen[v.cy][v.cx :=
              Glyph(u, true, false, v.attrs, v.fg, v.bg)]]
            && w.cy == v.cy && w.cx == (if v.cx + 1 < v.col then v.cx + 1 else v.cx)
            && (w.wrapNext <==> v.cx + 1 == v.col)
            && w.main.sel == (if v.main.sel.Touches(v.cx + v.main.scr, v.cy + v.main.scr, v.cx + v.main.scr,
              v.cy + v.main.scr) then v.main.sel.Remove() else v.main.sel)
            && w == v.(main := w.main, cx := w.cx, wrapNext := w.wrapNext, wrapWidth := w.wrapWidth)
            && w.wrapWidth == (if w.wrapNext then 1 else v.wrapWidth)
  {
  }

  /** Colours and attributes are those that were set last, foreground first. */
  lemma ColoursTyped(v: Screen, f: nat, b: nat, a: nat, u: nat)
    requires v.Valid() && !v.wrapNext
    ensures var w := Apply(v, Attr(f, b, a));
            && w.Valid() && w == v.(fg := f, bg := b, attrs := a)
            && (var g := Apply(w, Print(u, true)).main.screen[v.cy][v.cx];
              g.u == u && g.fg == f && g.bg == b && g.attrs == a)
            && w.BlankGlyph() == Glyph(32, false, false, 0, f, b)
  {
    TypedCell(Apply(v, Attr(f, b, a)), u, true);
  }

  /** A place is selected if it is between the ends, in reading order or in a rectangle. */
  lemma SelectedPlace(s: Selection.Sel, x: int, y: int)
    ensures s.Touches(x, y, x, y) <==>
            && s.Active() && !s.empty && !s.alt && s.nby <= y <= s.ney
            && (s.rectangular ==> s.nbx <= x <= s.nex)
            && (!s.rectangular && y == s.nby ==> s.nbx <= x) && (!s.rectangular && y == s.ney ==> x <= s.nex)
  {
  }

  /** With one it is a new line after the last cell was marked as going on, and then the same. */
  lemma TypedWraps(v: Screen, u: nat)
    requires v.Valid() && v.wrapNext && !v.main.sel.Active()
    ensures var row := v.main.screen[v.cy];
            var marked := v.(main := v.main.(screen := v.main.screen[v.cy := row[v.cx := row[v.cx].(wrap := true)]]));
            && marked.Valid() && Apply(marked, NewLine(true)).Valid()
            && Apply(v, Print(u, true)) == Apply(Apply(marked, NewLine(true)), Print(u, true))
  {
    hide ScrollUp;
    var row := v.main.screen[v.cy];
    var marked := v.(main := v.main.(screen := v.main.screen[v.cy := row[v.cx := row[v.cx].(wrap := true)]]));
    assert marked.Valid();
    ApplyValid(marked, NewLine(true));
    Scrolled(marked);
  }

  lemma Scrolled(v: Screen)
    requires v.Valid() && !v.main.sel.Active()
    ensures !Apply(v, NewLine(true)).main.sel.Active()
  {
  }

  /** A change of the width resets the region to the whole screen, keeps the view if it can and drops the selection. */
  lemma ReflowedRest(v: Screen, cols: nat, rows: nat)
    requires v.Valid() && Possible(v, Resize(cols, rows)) && cols != v.col
    ensures var w := Apply(v, Resize(cols, rows));
            && w.col == cols && w.Rows() == rows && w.top == 0 && w.bot == rows - 1
            && w.fg == v.fg && w.bg == v.bg && w.attrs == v.attrs
            && (w.main.sel.Active() <==> v.main.sel.Active() && v.main.sel.alt)
            && w.main.scr == (if v.main.scr < |w.main.history| then v.main.scr else |w.main.history|)
  {
    hide PlanReflow, CursorInWindow, NewHistory, NewScreen, Rewrap.SameCell;
    ReflowedValid(v, cols, rows);
  }

  /** A change of the height does the first, and keeps the column of the cursor. */
  lemma HeightenedRest(v: Screen, rows: nat)
    requires v.Valid() && 0 < rows && rows != v.Rows()
    ensures var w := Apply(v, Resize(v.col, rows));
            && w.Rows() == rows && w.top == 0 && w.bot == rows - 1
            && w == v.(main := w.main, cy := w.cy, top := 0, bot := rows - 1)
  {
    hide ResizeMain;
    HeightenedValid(v, rows);
  }
}
