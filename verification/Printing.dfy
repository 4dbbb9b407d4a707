/**
  * Printing narrow characters (tputc without insert mode), and what scrolling, resizing and printing
  * together keep: the WRAP bit only ever sits in the last column, which is what reflow relies on.
  */
module Printing {
  import opened Glyphs
  import opened Placement
  import opened Ring
  import opened Scrollback
  import opened Selection
  import opened Tails
  import Rewrap

  /** The WRAP bit sits in the last column only. */
  predicate Tidy(m: Main) {
    Rewrap.Clean(m.history) && Rewrap.Clean(m.screen)
  }

  // ---------------------------------------------------------------------------------------------
  // Scrolling and resizing keep screens tidy: every row is an old one or a blank one.

  predicate Drawn(s: seq<Cells>, from: seq<Cells>, blank: Cells) {
    forall i | 0 <= i < |s| :: s[i] in from || s[i] == blank
  }

  lemma BlankIsTidy(rows: nat, cols: nat)
    ensures Rewrap.Clean(Repeat(rows, Blanks(cols, EMPTY))) && Rewrap.Clean([])
  {
  }

  lemma DrawnClean(s: seq<Cells>, from: seq<Cells>, blank: Cells)
    requires Drawn(s, from, blank) && Rewrap.Clean(from) && Rewrap.CleanRow(blank)
    ensures Rewrap.Clean(s)
  {
    hide Rewrap.CleanRow;
  }

  lemma ScrollUpTidy(m: Main, top: nat, bot: nat, n: int, save: bool, col: nat, blank: Cells)
    requires top <= bot < |m.screen| && Tidy(m) && Rewrap.CleanRow(blank)
    ensures Tidy(ScrollUp(m, top, bot, n, save, col, blank))
    ensures |ScrollUp(m, top, bot, n, save, col, blank).screen| == |m.screen|
  {
    hide Rewrap.CleanRow;
    var r := ScrollUp(m, top, bot, n, save, col, blank);
    assert Drawn(r.screen, m.screen, blank);
    DrawnClean(r.screen, m.screen, blank);
    assert Rewrap.Clean(m.history + m.screen);
    assert Drawn(r.history, m.history + m.screen, blank);
    DrawnClean(r.history, m.history + m.screen, blank);
  }

  lemma ScrollDownTidy(m: Main, top: nat, bot: nat, n: int, col: nat, blank: Cells)
    requires top <= bot < |m.screen| && Tidy(m) && Rewrap.CleanRow(blank)
    ensures Tidy(ScrollDown(m, top, bot, n, col, blank))
  {
    hide Rewrap.CleanRow;
    var r := ScrollDown(m, top, bot, n, col, blank);
    assert Drawn(r.screen, m.screen, blank);
    DrawnClean(r.screen, m.screen, blank);
  }

  lemma PullBackTidy(m: Main, cy: nat, n: nat)
    requires n <= |m.history| && cy + n < |m.screen| && Tidy(m)
    ensures Tidy(PullBack(m, cy, n))
  {
    hide Rewrap.CleanRow;
  }

  lemma ResizeMainTidy(m: Main, cy: nat, rows: nat, col: nat, blank: Cells, empty: Cells)
    requires |m.history| <= HISTSIZE && cy < |m.screen| && 0 < rows && Tidy(m)
    requires Rewrap.CleanRow(blank) && Rewrap.CleanRow(empty)
    ensures Tidy(ResizeMain(m, cy, rows, col, blank, empty))
  {
    hide Rewrap.CleanRow, ScrollUp, PullBack;
    var s := m;
    if cy >= rows {
      ScrollUpTidy(m, 0, |m.screen| - 1, cy - rows + 1, true, col, blank);
      s := ScrollUp(m, 0, |m.screen| - 1, cy - rows + 1, true, col, blank);
    }
    assert |s.screen| == |m.screen|;
    var t := s.(screen := Resized(s.screen, rows, empty));
    assert Drawn(t.screen, s.screen, empty);
    DrawnClean(t.screen, s.screen, empty);
    var cy' := if cy >= rows then rows - 1 else cy;
    PullBackTidy(t, cy', Growth(Page(s.history, s.screen, cy'), rows));
  }

  lemma ReflowTidy(m: Page, cx: nat, col: nat, cols: nat, rows: nat, empty: Cells)
    requires Reflowable(m, cx, col, cols, rows)
    requires Rewrap.Clean(m.history) && Rewrap.Clean(m.screen) && Rewrap.CleanRow(empty)
    ensures var p := PlanReflow(m, cx, col, cols, rows);
            Rewrap.Clean(NewHistory(p.out, p.place)) && Rewrap.Clean(NewScreen(p.out, p.place, rows, empty))
  {
    hide PlanReflow, PlaceRows, LineEnd, Start, Reflowable, Rewrap.CleanRow, Rewrap.Result, Rewrap.SameCell;
    PlanParts(m, cx, col, cols, rows);
    var p := PlanReflow(m, cx, col, cols, rows);
    WindowClean(m, cx, Start(|m.history|, LineEnd(m.screen, m.cy), col, cols, rows), LineEnd(m.screen, m.cy));
    Rewrap.ReflowShape(p.src, cols, p.k, cx);
    var s := NewScreen(p.out, p.place, rows, empty);
    assert Drawn(s, p.out, empty);
    DrawnClean(s, p.out, empty);
  }

  lemma WindowClean(m: Page, cx: nat, start: int, oce: nat)
    requires 0 - |m.history| <= start <= m.cy <= oce < |m.screen|
    requires Rewrap.Clean(m.history) && Rewrap.Clean(m.screen)
    ensures Rewrap.Clean(Window(m, cx, start, oce))
  {
    var doc := m.history + m.screen;
    var rows := doc[|m.history| + start..|m.history| + oce + 1];
    forall i | 0 <= i < |rows| ensures Rewrap.CleanRow(Window(m, cx, start, oce)[i]) {
      assert rows[i] == doc[|m.history| + start + i] && Rewrap.CleanRow(rows[i]);
    }
  }

  // ---------------------------------------------------------------------------------------------
  // Printing.

  function Put(screen: seq<Cells>, y: nat, x: nat, g: Glyph): (s: seq<Cells>)
    requires y < |screen| && x < |screen[y]|
    ensures |s| == |screen|
  {
    screen[y := screen[y][x := g]]
  }

  function Mark(screen: seq<Cells>, y: nat, x: nat): (s: seq<Cells>)
    requires y < |screen| && x < |screen[y]|
    ensures |s| == |screen| && |s[y]| == |screen[y]|
  {
    Put(screen, y, x, screen[y][x].(wrap := true))
  }

  /** tnewline: the screen scrolls if the cursor is on the last row of the region. */
  function LineFeed(m: Main, top: nat, bot: nat, cy: nat, col: nat, blank: Cells): (r: Main)
    requires top <= bot < |m.screen|
    ensures |r.screen| == |m.screen|
  {
    if cy == bot then ScrollUp(m, top, bot, 1, true, col, blank) else m
  }

  function RowBelow(cy: nat, bot: nat, rows: nat): (y: nat)
    requires cy < rows
    ensures y < rows
  {
    if cy == bot || cy == rows - 1 then cy else cy + 1
  }

  function Unselected(m: Main, cy: nat, cx: nat): Main {
    if m.sel.Touches(cx + m.scr, cy + m.scr, cx + m.scr, cy + m.scr) then m.(sel := m.sel.Remove()) else m
  }

  datatype Pen = Pen(y: nat, x: nat, wrapNext: bool)

  /** Where the next character goes, and the screen when it is put there. */
  function Target(s: Pen, wraps: bool, bot: nat, rows: nat): Pen
    requires s.y < rows
  {
    if wraps && s.wrapNext then Pen(RowBelow(s.y, bot, rows), 0, false) else s
  }

  function Opening(m: Main, s: Pen, wraps: bool, top: nat, bot: nat, col: nat, blank: Cells): (r: Main)
    requires top <= bot < |m.screen| && s.y < |m.screen| && s.x < |m.screen[s.y]|
    ensures |r.screen| == |m.screen|
  {
    if wraps && s.wrapNext then LineFeed(m.(screen := Mark(m.screen, s.y, s.x)), top, bot, s.y, col, blank) else m
  }

  function Advanced(s: Pen, col: nat): Pen {
    if s.x + 1 < col then Pen(s.y, s.x + 1, false) else Pen(s.y, s.x, true)
  }

  lemma MarkTidy(screen: seq<Cells>, y: nat, x: nat, col: nat)
    requires y < |screen| && Wide(screen, col) && x < col && Rewrap.Clean(screen)
    ensures x == col - 1 ==> Rewrap.Clean(Mark(screen, y, x))
  {
    assert Rewrap.CleanRow(screen[y]);
  }

  lemma PutTidy(screen: seq<Cells>, y: nat, x: nat, g: Glyph)
    requires y < |screen| && x < |screen[y]| && Rewrap.Clean(screen) && !g.wrap
    ensures Rewrap.Clean(Put(screen, y, x, g))
  {
    assert Rewrap.CleanRow(screen[y]);
  }

  /** The text in front of the place where the next character goes on the same line. */
  function TextAt(m: Main, s: Pen): Rewrap.Text
    requires s.y < |m.screen| && s.x < |m.screen[s.y]|
  {
    Rewrap.Before(m.history + m.screen, |m.history| + s.y, if s.wrapNext then s.x + 1 else s.x)
  }

  /** Printing puts the next character behind that text and moves there. */
  function Printed(m: Main, s: Pen, wraps: bool, top: nat, bot: nat, col: nat, blank: Cells, g: Glyph): (r: Main)
    requires top <= bot < |m.screen| && s.y < |m.screen| && 0 < col && s.x < col
    requires Wide(m.screen, col) && |blank| == col
    ensures |r.screen| == |m.screen|
  {
    var o, t := Opening(m, s, wraps, top, bot, col, blank), Target(s, wraps, bot, |m.screen|);
    OpeningWide(m, s, wraps, top, bot, col, blank);
    o.(screen := Put(o.screen, t.y, t.x, g))
  }

  lemma OpeningWide(m: Main, s: Pen, wraps: bool, top: nat, bot: nat, col: nat, blank: Cells)
    requires top <= bot < |m.screen| && s.y < |m.screen| && s.x < col
    requires Wide(m.screen, col) && |blank| == col
    ensures Wide(Opening(m, s, wraps, top, bot, col, blank).screen, col)
  {
  }

  /** The rows above the place of the next character once a pending wrap is carried out. */
  function Above(m: Main, s: Pen, top: nat, bot: nat): seq<Cells>
    requires top <= bot < |m.screen| && s.y < |m.screen| && s.x < |m.screen[s.y]|
  {
    var k := Mark(m.screen, s.y, s.x);
    if s.y == bot then
      if top == 0 then LastN(m.history + k[..1], HISTSIZE) + k[1..s.y + 1]
      else m.history + k[..top] + k[top + 1..s.y + 1]
    else m.history + k[..RowBelow(s.y, bot, |m.screen|)]
  }

  lemma OpeningAbove(m: Main, s: Pen, top: nat, bot: nat, col: nat, blank: Cells)
    requires top <= bot < |m.screen| && s.y < |m.screen| && s.x < col && s.wrapNext
    requires Wide(m.screen, col) && |blank| == col
    ensures var o, y := Opening(m, s, true, top, bot, col, blank), RowBelow(s.y, bot, |m.screen|);
            o.history + o.screen[..y] == Above(m, s, top, bot)
  {
  }

  /** A character put behind some text of its row. */
  lemma PutExtends(m: Main, y: nat, x: nat, col: nat, g: Glyph)
    requires y < |m.screen| && x < col && Wide(m.screen, col) && !g.wrap
    ensures var r := m.(screen := Put(m.screen, y, x, g));
            && |r.screen[y]| == col
            && TextAt(r, Advanced(Pen(y, x, false), col)) == Rewrap.Write(TextAt(m, Pen(y, x, false)), [g])
  {
    hide Rewrap.ReadText, Rewrap.Write, Rewrap.Trim;
    var r := m.(screen := Put(m.screen, y, x, g));
    var above := m.history + m.screen[..y];
    assert (m.history + m.screen)[..|m.history| + y] == above;
    assert (r.history + r.screen)[..|r.history| + y] == above;
    assert r.screen[y][..x + 1] == m.screen[y][..x] + [g];
    Rewrap.WriteCompose(Rewrap.ReadText(above), m.screen[y][..x], [g]);
  }

  /** The text in front of that place is the text of the rows above it. */
  lemma OpeningText(m: Main, s: Pen, top: nat, bot: nat, col: nat, blank: Cells)
    requires top <= bot < |m.screen| && s.y < |m.screen| && s.x < col && s.wrapNext
    requires Wide(m.screen, col) && |blank| == col
    ensures var o, t := Opening(m, s, true, top, bot, col, blank), Target(s, true, bot, |m.screen|);
            |o.screen[t.y]| == col && TextAt(o, t) == Rewrap.ReadText(Above(m, s, top, bot))
  {
    hide Rewrap.ReadText, Rewrap.Write, Rewrap.Trim, ScrollUp, Above;
    var o, y := Opening(m, s, true, top, bot, col, blank), RowBelow(s.y, bot, |m.screen|);
    OpeningWide(m, s, true, top, bot, col, blank);
    OpeningAbove(m, s, top, bot, col, blank);
    assert (o.history + o.screen)[..|o.history| + y] == o.history + o.screen[..y];
    Rewrap.WriteNothing(Rewrap.ReadText(Above(m, s, top, bot)));
    assert o.screen[y][..0] == [];
  }

  /** The rows down to the marked one read like the text in front of the cursor. */
  lemma MarkedText(m: Main, s: Pen, col: nat)
    requires s.y < |m.screen| && s.x == col - 1 && s.wrapNext && Wide(m.screen, col)
    ensures Rewrap.ReadText(m.history + Mark(m.screen, s.y, s.x)[..s.y + 1]) == TextAt(m, s)
  {
    hide Rewrap.ReadText, Rewrap.Write;
    var rows := m.history + m.screen[..s.y];
    assert (m.history + m.screen)[..|m.history| + s.y] == rows;
    assert m.screen[s.y][..col] == m.screen[s.y];
    assert m.history + Mark(m.screen, s.y, s.x)[..s.y + 1] == rows + [Mark(m.screen, s.y, s.x)[s.y]];
    Rewrap.MarkedRow(rows, m.screen[s.y]);
  }

  /** Wrapping keeps the text in front of the cursor, but for a row that leaves a full ring. */
  lemma WrapKeepsText(m: Main, s: Pen, top: nat, bot: nat, col: nat)
    requires top <= bot < |m.screen| && s.y < |m.screen| && s.x == col - 1 && s.wrapNext && Wide(m.screen, col)
    requires |m.history| <= HISTSIZE && if s.y == bot then top == 0 else s.y < |m.screen| - 1
    ensures TailText(Rewrap.ReadText(Above(m, s, top, bot)), TextAt(m, s))
    ensures s.y != bot || |m.history| < HISTSIZE ==> Rewrap.ReadText(Above(m, s, top, bot)) == TextAt(m, s)
  {
    hide Rewrap.ReadText, TextAt, TailText;
    MarkedText(m, s, col);
    var all := m.history + Mark(m.screen, s.y, s.x)[..s.y + 1];
    var gone := if s.y == bot && |m.history| == HISTSIZE then 1 else 0;
    assert Above(m, s, top, bot) == all[gone..];
    RowsTail(all, gone);
    assert gone == 0 ==> all[gone..] == all;
  }

  /**
    * Printing a character appends it to the logical line the cursor is in, across the right margin as well: the
    * line goes on in the next row, and scrolling takes it along; of a full ring the oldest row goes. With a wrap
    * pending, a region that does not start at the top drops its first row, a cursor below the region on the last
    * row starts over in that row, and without wrap mode the last column is overwritten.
    */
  lemma PrintExtendsText(m: Main, s: Pen, wraps: bool, top: nat, bot: nat, col: nat, blank: Cells, g: Glyph)
    requires top <= bot < |m.screen| && s.y < |m.screen| && s.x < col && (s.wrapNext ==> s.x == col - 1)
    requires Wide(m.screen, col) && |blank| == col && !g.wrap && |m.history| <= HISTSIZE
    ensures var r, t := Printed(m, s, wraps, top, bot, col, blank, g), Target(s, wraps, bot, |m.screen|);
            && |r.screen[t.y]| == col
            && var text := TextAt(r, Advanced(t, col));
            if !s.wrapNext then text == Rewrap.Write(TextAt(m, s), [g])
            else if !wraps then text == Rewrap.Write(TextAt(m, s.(wrapNext := false)), [g])
            else if s.y == bot && top == 0 then
              && TailText(text, Rewrap.Write(TextAt(m, s), [g]))
              && (|m.history| < HISTSIZE ==> text == Rewrap.Write(TextAt(m, s), [g]))
            else if s.y == bot then
              text == Rewrap.Write(Rewrap.ReadText(m.history + m.screen[..top] +
                Mark(m.screen, s.y, s.x)[top + 1..s.y + 1]), [g])
            else if s.y == |m.screen| - 1 then text == Rewrap.Write(Rewrap.ReadText(m.history + m.screen[..s.y]), [g])
            else text == Rewrap.Write(TextAt(m, s), [g])
  {
    hide ScrollUp, TextAt, Put, Rewrap.ReadText, Rewrap.Write, TailText;
    var o, t := Opening(m, s, wraps, top, bot, col, blank), Target(s, wraps, bot, |m.screen|);
    OpeningWide(m, s, wraps, top, bot, col, blank);
    PutExtends(o, t.y, t.x, col, g);
    if s.wrapNext && wraps {
      OpeningText(m, s, top, bot, col, blank);
      if if s.y == bot then top == 0 else s.y < |m.screen| - 1 {
        WrapKeepsText(m, s, top, bot, col);
        TailWrite(Rewrap.ReadText(Above(m, s, top, bot)), TextAt(m, s), [g]);
      } else {
        MarkedAbove(m, s, top, bot);
      }
    }
  }

  lemma MarkedAbove(m: Main, s: Pen, top: nat, bot: nat)
    requires top <= bot < |m.screen| && s.y < |m.screen| && s.x < |m.screen[s.y]|
    ensures s.y == bot && top > 0 ==>
              Above(m, s, top, bot) == m.history + m.screen[..top] + Mark(m.screen, s.y, s.x)[top + 1..s.y + 1]
    ensures s.y != bot && s.y == |m.screen| - 1 ==> Above(m, s, top, bot) == m.history + m.screen[..s.y]
  {
    assert Mark(m.screen, s.y, s.x)[..s.y] == m.screen[..s.y];
    assert top <= s.y ==> Mark(m.screen, s.y, s.x)[..top] == m.screen[..top];
  }
}
