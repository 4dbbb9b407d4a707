/**
  * The main screen of st.c: row buffers that move between the screen and the scrollback ring by
  * swapping pointers.
  */
module Terminal {
  import opened Glyphs
  import opened LineBuffer
  import opened Placement
  import opened Printing
  import opened Ring
  import opened Scrollback
  import opened Screens
  import opened Selection
  import opened Strays
  import Rewrap

  // ---------------------------------------------------------------------------------------------
  // Row buffers are never shared: each pointer occurs once in the screen and the ring together.

  predicate Separate<T(==)>(l: seq<T>, h: seq<T>) {
    NoDup(l) && NoDup(h) && forall i, j | 0 <= i < |l| && 0 <= j < |h| :: l[i] != h[j]
  }

  lemma SwapInside<T>(l: seq<T>, h: seq<T>, i: nat, j: nat)
    requires Separate(l, h) && i < |l| && j < |l|
    ensures Separate(l[i := l[j]][j := l[i]], h)
  {
  }

  lemma SwapAcross<T>(l: seq<T>, h: seq<T>, i: nat, j: nat)
    requires Separate(l, h) && i < |l| && j < |h|
    ensures Separate(l[i := h[j]], h[j := l[i]])
  {
  }

  ghost function Contents(rows: seq<Row>): (s: seq<Cells>)
    reads rows
    ensures |s| == |rows|
    ensures forall i | 0 <= i < |rows| :: s[i] == rows[i][..]
  {
    seq(|rows|, i requires 0 <= i < |rows| reads rows => rows[i][..])
  }

  /** The ring seen as a sequence: unused buffers up to `cut`, then rows of b from position `from` on. */
  lemma RingParts(s: seq<Row>, cut: nat, b: seq<Row>, from: nat)
    requires cut <= |s| && from + (|s| - cut) == |b| && s[cut..] == b[from..]
    requires NoDup(s[..cut]) && NoDup(b) && forall k | 0 <= k < cut :: s[..cut][k] !in b
    ensures forall i, j | 0 <= i < j < |s| :: s[i] != s[j]
    ensures forall k | cut <= k < |s| :: s[k] == b[from + k - cut] && s[k] in b
  {
    assert forall k | 0 <= k < cut :: s[k] == s[..cut][k];
    assert forall k | cut <= k < |s| :: s[k] == s[cut..][k - cut] == b[from..][k - cut];
  }

  datatype ScrollMode = ResizeHist | NoSaveHist | SaveHist

  class Term {
    var row: nat
    var col: nat
    var line: array<Row>
    var hist: array<Row>
    var histi: nat
    var histf: nat
    var scr: nat
    var cx: nat
    var cy: nat
    var wrapNext: bool
    var wrapWidth: nat
    var top: nat
    var bot: nat
    var fg: nat
    var bg: nat
    var attrs: nat
    var sel: Sel

    /** the cells of the screen rows, and of the rows stored in the ring, oldest first */
    ghost var screen: seq<Cells>
    ghost var history: seq<Cells>
    /** all row buffers in use */
    ghost var rows: set<Row>

    ghost predicate Wired()
      reads this`row, this`col, this`line, this`hist, this`histi, this`rows, line, hist
    {
      && line != hist
      && line.Length == row && hist.Length == HISTSIZE
      && 0 < row && 0 < col && histi < HISTSIZE
      && Separate(line[..], hist[..])
      && (forall i | 0 <= i < row :: line[i] in rows && line[i].Length == col)
      && (forall i | 0 <= i < HISTSIZE :: hist[i] in rows && hist[i].Length == col)
    }

    /** With f rows in the ring; the rows of the ring beyond those hold no text. */
    ghost predicate Core(f: nat)
      reads this`row, this`col, this`line, this`hist, this`histi, this`screen, this`history, this`rows
      reads line, hist, rows
      ensures Core(f) ==> |screen| == row && |history| == f <= HISTSIZE && 0 < row && 0 < col
    {
      && Wired() && f <= HISTSIZE
      && screen == Contents(line[..])
      && history == Contents(Stored(hist[..], histi, f))
    }

    ghost predicate Valid()
      reads this`row, this`col, this`line, this`hist, this`histi, this`histf, this`screen, this`history, this`rows
      reads line, hist, rows
      ensures Valid() ==> |screen| == row && |history| == histf && 0 < row && 0 < col && histf <= HISTSIZE
    {
      Core(histf)
    }

    ghost function State(): Main
      reads this`history, this`screen, this`scr, this`sel
    {
      Main(history, screen, scr, sel)
    }

    ghost function CurrentPage(): Page
      reads this`history, this`screen, this`cy
    {
      Page(history, screen, cy)
    }

    function BlankRow(): Cells
      reads this`col, this`fg, this`bg
    {
      Blanks(col, Blank(fg, bg))
    }

    // -------------------------------------------------------------------------------------------
    // Elementary moves of the row buffers.

    method SwapPointers(i: nat, j: nat, ghost f: nat)
      requires Core(f) && i < row && j < row
      modifies this`screen, line
      ensures Core(f)
      ensures line[..] == old(line[..])[i := old(line[j])][j := old(line[i])]
      ensures screen == old(screen)[i := old(screen[j])][j := old(screen[i])]
    {
      SwapInside(line[..], hist[..], i, j);
      var temp := line[i];
      line[i] := line[j];
      line[j] := temp;
      screen := screen[i := screen[j]][j := screen[i]];
    }

    method SwapRows(i: nat, j: nat)
      requires Valid() && i < row && j < row
      modifies this`screen, line
      ensures Valid()
      ensures screen == old(screen)[i := old(screen[j])][j := old(screen[i])]
    {
      SwapPointers(i, j, histf);
    }

    method ClearLine(y: nat)
      requires Valid() && y < row
      modifies this`screen, line[y]
      ensures Valid()
      ensures screen == old(screen)[y := BlankRow()]
    {
      assert line[y] in line[..];
      ClearRow(line[y], Blank(fg, bg));
      screen := screen[y := BlankRow()];
    }

    /** One turn of the history loop: the oldest ring buffer is cleared and trades places with row i. */
    method SavePointers(i: nat, ghost f: nat)
      requires Wired() && i < row && f <= HISTSIZE
      modifies this`histi, line, hist, hist[Next(histi)]
      ensures Wired()
      ensures line[..] == old(line[..])[i := old(hist[Next(histi)])]
      ensures line[i][..] == BlankRow()
      ensures Stored(hist[..], histi, Capped(f + 1)) ==
        LastN(old(Stored(hist[..], histi, f)) + [old(line[i])], HISTSIZE)
    {
      PushStores(hist[..], histi, f, line[i]);
      SwapAcross(line[..], hist[..], i, Next(histi));
      histi := (histi + 1) % HISTSIZE;
      var temp := hist[histi];
      ClearRow(temp, Blank(fg, bg));
      hist[histi] := line[i];
      line[i] := temp;
    }

    method SaveRow(i: nat, ghost f: nat)
      requires Core(f) && i < row
      modifies this`histi, this`screen, this`history, line, hist, rows
      ensures Core(Capped(f + 1))
      ensures screen == old(screen)[i := BlankRow()]
      ensures history == LastN(old(history) + [old(screen)[i]], HISTSIZE)
    {
      ghost var p := Stored(hist[..], histi, f) + [line[i]];
      ghost var texts := history + [screen[i]];
      assert Contents(p) == texts;
      SavePointers(i, f);
      screen := screen[i := BlankRow()];
      history := LastN(texts, HISTSIZE);
      ghost var q := Stored(hist[..], histi, Capped(f + 1));
      assert q == LastN(p, HISTSIZE);
      forall k | 0 <= k < |q| ensures q[k][..] == history[k] {
        assert q[k] in hist[..];
        assert q[k] != line[i];
      }
    }

    /** The history loop of tscrollup: the top n rows go to the ring, blank rows come back. */
    method SaveTop(n: nat)
      requires Valid() && n <= row
      modifies this`histi, this`histf, this`screen, this`history, line, hist, rows
      ensures Valid() && histf == Capped(old(histf) + n)
      ensures screen == Cleared(old(screen), 0, n, BlankRow())
      ensures history == LastN(old(history) + old(screen)[..n], HISTSIZE)
    {
      hide Cleared, Core, LastN;
      ghost var was, texts := screen, history;
      SavedNothing(texts, was, BlankRow());
      var i := 0;
      while i < n
        modifies this`histi, this`screen, this`history, line, hist, rows
        invariant 0 <= i <= n
        invariant Core(Capped(histf + i))
        invariant screen == Cleared(was, 0, i, BlankRow())
        invariant history == LastN(texts + was[..i], HISTSIZE)
      {
        SaveStep(texts, was, i, BlankRow());
        SaveRow(i, Capped(histf + i));
        i := i + 1;
      }
      histf := Capped(histf + n);
    }

    /** tclearregion over whole rows, without its effect on the selection */
    method ClearRows(y1: nat, y2: nat)
      requires Valid() && y1 < y2 <= row
      modifies this`screen, rows
      ensures Valid()
      ensures screen == Cleared(old(screen), y1, y2, BlankRow())
    {
      ghost var was := screen;
      ClearStep(was, y1, y1, BlankRow());
      var y := y1;
      while y < y2
        invariant y1 <= y <= y2
        invariant Valid() && screen == Cleared(was, y1, y, BlankRow())
      {
        ClearStep(was, y1, y, BlankRow());
        ClearLine(y);
        y := y + 1;
      }
    }

    /** The pointer rotation of tscrollup: n blank rows sink from the top of the region to its bottom. */
    method SinkRows(ghost was: seq<Cells>, top: nat, bot: nat, n: nat)
      requires Valid() && top <= bot < row == |was| && 0 < n <= bot - top + 1
      requires screen == Cleared(was, top, top + n, BlankRow())
      modifies this`screen, line
      ensures Valid() && screen == ShiftUp(was, top, bot, n, BlankRow())
    {
      hide Core, Sunk, Cleared, ShiftUp;
      SinkEnds(was, top, bot, n, BlankRow());
      var i := top;
      while i <= bot - n
        invariant top <= i <= bot - n + 1
        invariant Valid() && screen == Sunk(was, top, i, n, BlankRow())
      {
        SinkStep(was, top, i, n, BlankRow());
        SwapRows(i, i + n);
        i := i + 1;
      }
    }

    /** The pointer rotation of tscrolldown: n blank rows rise from the bottom of the region to its top. */
    method RaiseRows(ghost was: seq<Cells>, top: nat, bot: nat, n: nat)
      requires Valid() && top <= bot < row == |was| && 0 < n <= bot - top + 1
      requires screen == Cleared(was, bot - n + 1, bot + 1, BlankRow())
      modifies this`screen, line
      ensures Valid() && screen == ShiftDown(was, top, bot, n, BlankRow())
    {
      hide Core, Raised, Cleared, ShiftDown;
      RaiseEnds(was, top, bot, n, BlankRow());
      var i: int := bot;
      while i >= top + n
        invariant top + n - 1 <= i <= bot
        invariant Valid() && screen == Raised(was, i, bot, n, BlankRow())
      {
        RaiseStep(was, bot, i, n, BlankRow());
        SwapRows(i, i - n);
        i := i - 1;
      }
    }

    // -------------------------------------------------------------------------------------------
    // tscrollup, tscrolldown

    method TScrollUp(top: nat, bot: nat, n: int, mode: ScrollMode)
      requires Valid() && top <= bot < row
      modifies this`histi, this`histf, this`scr, this`sel, this`screen, this`history, line, hist, rows
      ensures Valid()
      ensures State() == ScrollUp(old(State()), top, bot, n, mode != NoSaveHist, col, BlankRow())
    {
      hide Valid;
      if n <= 0 {
        return;
      }
      var k := if n < bot - top + 1 then n else bot - top + 1;
      if top == 0 && mode != NoSaveHist {
        ScrollSaving(bot, k);
      } else {
        ScrollDiscarding(top, bot, k);
      }
    }

    method ScrollSaving(bot: nat, n: nat)
      requires Valid() && bot < row && 0 < n <= bot + 1
      modifies this`histi, this`histf, this`scr, this`sel, this`screen, this`history, line, hist, rows
      ensures Valid()
      ensures State() == SaveScroll(old(State()), bot, n, BlankRow())
    {
      hide Cleared, ShiftUp, Valid;
      ghost var was := screen;
      SaveTop(n);
      var s := FollowView(n);
      SinkRows(was, 0, bot, n);
      MoveSelection(s);
    }

    /** A scrolled-back view stays on its rows as long as the ring can hold them. */
    method FollowView(n: nat) returns (s: nat)
      modifies this`scr
      ensures scr == ScrAfter(old(scr), n) && s == Slip(old(scr), n)
    {
      s := n;
      if scr > 0 {
        var j := scr;
        scr := if j + n < HISTSIZE then j + n else HISTSIZE;
        s := j + n - scr;
      }
    }

    method MoveSelection(s: nat)
      modifies this`sel
      ensures sel == SelMovedUp(old(sel), s, scr, histf)
    {
      if sel.Active() && !sel.alt && s > 0 {
        sel := sel.Move(0 - s);
        if sel.nby - scr < 0 - histf {
          sel := sel.Remove();
        }
      }
    }

    method ScrollDiscarding(top: nat, bot: nat, n: nat)
      requires Valid() && top <= bot < row && 0 < n <= bot - top + 1
      modifies this`sel, this`screen, line, rows
      ensures Valid()
      ensures State() == DropScroll(old(State()), top, bot, n, col, BlankRow())
    {
      hide Cleared, ShiftUp, Valid;
      ghost var was := screen;
      ClearSelection(top, top + n);
      ClearRows(top, top + n);
      SinkRows(was, top, bot, n);
      ScrollSelection(top, bot, 0 - n);
    }

    method ClearSelection(y1: nat, y2: nat)
      requires 0 < col && y1 < y2
      modifies this`sel
      ensures sel == if old(sel).Touches(scr, y1 + scr, col - 1 + scr, y2 - 1 + scr) then old(sel).Remove()
        else old(sel)
    {
      if sel.Touches(scr, y1 + scr, col - 1 + scr, y2 - 1 + scr) {
        sel := sel.Remove();
      }
    }

    method ScrollSelection(top: nat, bot: nat, n: int)
      modifies this`sel
      ensures sel == if old(sel).Active() && !old(sel).alt then old(sel).Scroll(top + scr, bot + scr, n) else old(sel)
    {
      if sel.Active() && !sel.alt {
        sel := sel.Scroll(top + scr, bot + scr, n);
      }
    }

    method TScrollDown(top: nat, n: int)
      requires Valid() && top <= bot < row
      modifies this`sel, this`screen, line, rows
      ensures Valid()
      ensures State() == ScrollDown(old(State()), top, bot, n, col, BlankRow())
    {
      hide Cleared, ShiftDown, Valid;
      if n <= 0 {
        return;
      }
      var k := if n < bot - top + 1 then n else bot - top + 1;
      ghost var was := screen;
      ClearSelection(bot - k + 1, bot + 1);
      ClearRows(bot - k + 1, bot + 1);
      RaiseRows(was, top, bot, k);
      ScrollSelection(top, bot, k);
    }

    // -------------------------------------------------------------------------------------------
    // The scrolled-back view: TLINE, kscrollup, kscrolldown

    function TLine(y: int): Row
      requires Valid() && scr <= histf && scr - histf <= y < row
      reads this`row, this`col, this`line, this`hist, this`histi, this`histf, this`scr, this`screen, this`history,
        this`rows
      reads line, hist, rows
    {
      if y < scr then hist[(histi + y - scr + 1 + HISTSIZE) % HISTSIZE] else line[y - scr]
    }

    /** The macro reads the row of the document that the value model shows. */
    lemma TLineShows(y: int)
      requires Valid() && scr <= histf && scr - histf <= y < row
      ensures TLine(y)[..] == RowShown(history, screen, scr, y)
    {
      assert Wired();
      hide Core, Contents;
      DocumentRow(y - scr);
      assert TLine(y) == LineAbs(y - scr);
    }

    method KScrollDown(arg: int)
      modifies this`scr, this`sel
      ensures scr == if Request(arg, row) <= old(scr) then old(scr) - Request(arg, row) else 0
      ensures sel == SelFollowing(old(sel), scr - old(scr))
    {
      if scr == 0 {
        return;
      }
      var n := arg;
      if n < 0 {
        n := if row / (0 - n) > 1 then row / (0 - n) else 1;
      }
      if n <= scr {
        scr := scr - n;
      } else {
        n := scr;
        scr := 0;
      }
      if sel.Active() && !sel.alt {
        sel := sel.Move(0 - n);
      }
    }

    method KScrollUp(arg: int)
      requires scr <= histf
      modifies this`scr, this`sel
      ensures scr == if old(scr) + Request(arg, row) <= histf then old(scr) + Request(arg, row) else histf
      ensures sel == SelFollowing(old(sel), scr - old(scr))
    {
      if histf == 0 {
        return;
      }
      var n := arg;
      if n < 0 {
        n := if row / (0 - n) > 1 then row / (0 - n) else 1;
      }
      if scr + n <= histf {
        scr := scr + n;
      } else {
        n := histf - scr;
        scr := histf;
      }
      if sel.Active() && !sel.alt {
        sel := sel.Move(n);
      }
    }

    // -------------------------------------------------------------------------------------------
    // rscrolldown

    /** First loop: the rows down to the cursor sink by n. */
    lemma ScreenLength()
      requires Valid()
      ensures |screen| == row
    {
    }

    method OpenTop(n: nat)
      requires Valid() && 0 < n && cy + n < row
      modifies this`screen, line
      ensures Valid()
      ensures Opened(old(screen), screen, n - 1, cy, n)
    {
      ScreenLength();
      hide Valid, Opened;
      var i := cy + n;
      OpenedStart(screen, cy, n);
      while i >= n
        invariant n - 1 <= i <= cy + n
        invariant Valid() && |screen| == row
        invariant Opened(old(screen), screen, i, cy, n)
      {
        OpenedNext(old(screen), screen, i, cy, n);
        SwapRows(i, i - n);
        i := i - 1;
      }
    }

    /** One turn of the second loop: row i trades places with the newest ring buffer. */
    method PullPointers(i: nat, ghost f: nat)
      requires Wired() && i < row && 0 < f <= HISTSIZE
      modifies this`histi, line, hist
      ensures Wired()
      ensures line[..] == old(line[..])[i := old(Stored(hist[..], histi, f))[f - 1]]
      ensures Stored(hist[..], histi, f - 1) == old(Stored(hist[..], histi, f))[..f - 1]
    {
      PopRemoves(hist[..], histi, f, line[i]);
      SwapAcross(line[..], hist[..], i, histi);
      var temp := line[i];
      line[i] := hist[histi];
      hist[histi] := temp;
      histi := (histi - 1 + HISTSIZE) % HISTSIZE;
    }

    method PullRow(i: nat, ghost f: nat)
      requires Core(f) && i < row && 0 < f
      modifies this`histi, this`screen, this`history, line, hist
      ensures Core(f - 1)
      ensures screen == old(screen)[i := old(history)[f - 1]]
      ensures history == old(history)[..f - 1]
    {
      hide Wired;
      PullPointers(i, f);
      screen := screen[i := history[f - 1]];
      history := history[..f - 1];
    }

    /** Second loop: the n newest history rows fill the top. */
    method FillTop(n: nat)
      requires Valid() && n <= row && n <= histf
      modifies this`histi, this`screen, this`history, line, hist
      ensures Core(histf - n)
      ensures Filled(old(history), old(screen), screen, 0, n)
      ensures history == old(history)[..histf - n]
    {
      hide Core;
      ghost var was, stored := screen, history;
      var i := n;
      while i > 0
        invariant 0 <= i <= n
        invariant Core(histf - n + i)
        invariant Filled(stored, was, screen, i, n)
        invariant history == stored[..histf - n + i]
      {
        i := i - 1;
        PullRow(i, histf - n + i + 1);
      }
    }

    /** Rows rscrolldown(n) can bring back. */
    function Pulls(n: int): nat
      reads this`histf
    {
      if n <= 0 then 0 else if n < histf then n else histf
    }

    method RScrollDown(arg: int)
      requires Valid() && cy + Pulls(arg) < row
      modifies this`histi, this`histf, this`scr, this`cy, this`sel, this`screen, this`history, line, hist
      ensures Valid()
      ensures cy == old(cy + Pulls(arg))
      ensures State() == PullBack(old(State()), old(cy), old(Pulls(arg)))
    {
      hide Core, Pulled, Opened, Filled, SelFollowing;
      var n := if arg < histf then arg else histf;
      if n <= 0 {
        PulledNothing(history, screen, cy);
        return;
      }
      OpenTop(n);
      ghost var mid := screen;
      FillTop(n);
      OpenedFilled(old(history), old(screen), mid, screen, cy, n);
      cy := cy + n;
      histf := histf - n;
      FollowPulled(n);
    }

    /** The view stays on its rows while it can, and the selection follows it. */
    method FollowPulled(n: nat)
      modifies this`scr, this`sel
      ensures scr == if old(scr) < n then 0 else old(scr) - n
      ensures sel == if old(scr) < n then SelFollowing(old(sel), n - old(scr)) else old(sel)
    {
      var i := scr - n;
      if i >= 0 {
        scr := i;
      } else {
        scr := 0;
        if sel.Active() && !sel.alt {
          sel := sel.Move(0 - i);
        }
      }
    }

    // -------------------------------------------------------------------------------------------
    // tresizedef with the width unchanged

    /** The row pointers reallocated: rows are cut off below, or new blank ones added. */
    method ReallocPointers(n: nat)
      requires Wired() && 0 < n
      modifies this`line, this`row, this`rows
      ensures Wired() && fresh(line) && row == n && fresh(rows - old(rows))
      ensures forall i | 0 <= i < n && i < old(row) :: line[i] == old(line[i])
      ensures forall i | old(row) <= i < n :: fresh(line[i]) && line[i][..] == Blanks(col, EMPTY)
    {
      var ptrs := line[..];
      var keep := if row < n then row else n;
      var lines := new Row[n](i => if 0 <= i < |ptrs| then ptrs[i] else ptrs[0]);
      AddRows(lines, keep);
      row := n;
      line := lines;
      rows := rows + (set i | keep <= i < n :: lines[i]);
    }

    method AddRows(lines: array<Row>, keep: nat)
      requires Wired() && keep <= lines.Length && keep <= row
      requires lines != hist && lines != line
      requires forall i | 0 <= i < keep :: lines[i] == line[i]
      modifies lines
      ensures forall i | 0 <= i < keep :: lines[i] == line[i]
      ensures Separate(lines[..], hist[..])
      ensures forall i | 0 <= i < lines.Length :: lines[i].Length == col
      ensures forall i | keep <= i < lines.Length :: fresh(lines[i]) && lines[i][..] == Blanks(col, EMPTY)
    {
      var i := keep;
      while i < lines.Length
        modifies lines
        invariant keep <= i <= lines.Length
        invariant forall k | 0 <= k < keep :: lines[k] == line[k]
        invariant Separate(lines[..i], hist[..])
        invariant forall k | 0 <= k < i :: lines[k].Length == col
        invariant forall k | keep <= k < i :: fresh(lines[k]) && lines[k][..] == Blanks(col, EMPTY)
      {
        lines[i] := new Glyph[col](_ => EMPTY);
        i := i + 1;
      }
      assert lines[..i] == lines[..];
    }

    method ReallocRows(n: nat)
      requires Valid() && 0 < n
      modifies this`line, this`row, this`rows, this`screen
      ensures Valid() && fresh(line) && row == n && fresh(rows - old(rows))
      ensures screen == Resized(old(screen), n, Blanks(col, EMPTY))
    {
      ReallocPointers(n);
      screen := Resized(screen, n, Blanks(col, EMPTY));
    }

    /** tresizedef when only the height changes */
    method ResizeRows(n: nat)
      requires Valid() && cy < row && 0 < n
      modifies this`row, this`line, this`histi, this`histf, this`scr, this`cy, this`sel
      modifies this`screen, this`history, this`rows, line, hist, rows
      ensures Valid() && row == n && cy < n && fresh(line) && fresh(rows - old(rows))
      ensures State() == ResizeMain(old(State()), old(cy), n, col, BlankRow(), Blanks(col, EMPTY))
      ensures CurrentPage() == ResizeHeight(old(CurrentPage()), n, BlankRow(), Blanks(col, EMPTY))
    {
      hide Core, ScrollUp, Resized, Pulled, ShiftUp, PullBack;
      ghost var m := State();
      if cy >= n {
        TScrollUp(0, row - 1, cy - n + 1, ResizeHist);
        cy := n - 1;
      }
      var grow := n - row;
      ReallocRows(n);
      RScrollDown(grow);
      ResizeMainIsResizeHeight(m, old(cy), n, col, BlankRow(), Blanks(col, EMPTY));
    }

    // -------------------------------------------------------------------------------------------
    // treflow: the loop

    /** TLINEABS */
    function LineAbs(y: int): Row
      requires Wired() && histf <= HISTSIZE && 0 - histf <= y < row
      reads this`row, this`col, this`line, this`hist, this`histi, this`histf, this`rows, line, hist
    {
      if y < 0 then hist[(histi + y + 1 + HISTSIZE) % HISTSIZE] else line[y]
    }

    /** The source rows as the loop reads them, from row `start` of the document on. */
    ghost predicate Source(src: seq<Cells>, start: int)
      reads this`row, this`col, this`line, this`hist, this`histi, this`histf, this`rows, this`cx, this`cy
      reads line, hist, rows
      ensures Source(src, start) ==>
                && Wired() && histf <= HISTSIZE && cx < col && line.Length == row
                && 0 - histf <= start <= cy < start + |src| <= row && cx < |src[cy - start]|
    {
      && Wired() && histf <= HISTSIZE
      && 0 - histf <= start <= cy < start + |src| <= row && cx < col
      && (forall i | 0 <= i < |src| ::
        src[i] == Rewrap.ReadRow(LineAbs(start + i)[..], if start + i == cy then cx + 1 else 0))
      && cx < |src[cy - start]|
    }

    /** The current source row and how much of it counts. */
    method ReadLine(ghost src: seq<Cells>, ghost start: int, oy: int, ox: nat, cur0: Row, len0: nat)
      returns (cur: Row, len: nat)
      requires Source(src, start) && start <= oy < start + |src|
      requires ox > 0 ==> cur0 == LineAbs(oy) && len0 == |src[oy - start]|
      ensures cur == LineAbs(oy) && cur in rows && len == |src[oy - start]| <= cur.Length
      ensures cur[..len] == src[oy - start]
    {
      cur, len := cur0, len0;
      if ox == 0 {
        cur := if oy < 0 then hist[(histi + oy + 1 + HISTSIZE) % HISTSIZE] else line[oy];
        len := TLineLen(cur);
        if oy == cy {
          len := if len < cx + 1 then cx + 1 else len;
        }
      }
    }

    /** One turn of the loop. */
    method LoopTurn(buf: array<Row>, ghost src: seq<Cells>, ghost start: int, ghost f: Rewrap.Flow,
        ghost g: Rewrap.Flow, cols: nat, oy: int, ox: nat, nx: nat, ny: int, c: Cursor, cur: Row, len: nat)
      returns (oy': int, ox': nat, nx': nat, ny': int, c': Cursor, cur': Row, len': nat)
      requires Source(src, start) && f.Valid(src, cols) && f.oy < |src|
      requires g == Rewrap.Step(src, cols, cy - start, cx, f)
      requires buf != line && buf != hist && Holds(buf, cols, f)
      requires nx == |f.part| && ny + 1 == f.Count() && oy == start + f.oy && ox == f.ox
      requires nx == 0 ==> f.Count() < buf.Length
      requires forall i | 0 <= i < f.Count() :: buf[i] !in rows
      requires ox > 0 ==> cur == LineAbs(oy) && len == |src[f.oy]|
      requires Rewrap.Waiting(f, cy - start, cx) && c == CursorFor(f.spot, cx, wrapNext, wrapWidth, cols)
      modifies buf, if nx > 0 then {buf[ny]} else {}
      ensures Source(src, start)
      ensures Holds(buf, cols, g)
      ensures nx' == |g.part| && ny' + 1 == g.Count() && oy' == start + g.oy && ox' == g.ox
      ensures g.Count() == if nx == 0 then f.Count() + 1 else f.Count()
      ensures buf[..f.Count()] == old(buf[..f.Count()])
      ensures nx == 0 ==> fresh(buf[f.Count()]) && buf[f.Count()] !in rows
      ensures ox' > 0 ==> cur' == LineAbs(oy') && len' == |src[g.oy]|
      ensures Rewrap.Waiting(g, cy - start, cx) && c' == CursorFor(g.spot, cx, wrapNext, wrapWidth, cols)
    {
      hide Holds, Begun, Source, Wired, LineAbs, CursorFor, Rewrap.ChunkOf, Rewrap.Waiting, Rewrap.Written,
        Rewrap.Step, Rewrap.Capture;
      Rewrap.StepIsChunk(src, cols, cy - start, cx, f);
      Rewrap.StepWaits(src, cols, cy - start, cx, f);
      ny', c', cur', len' := TurnHead(buf, src, start, f, cols, oy, ox, nx, ny, c, cur, len);
      var next;
      nx', ox', next := WriteStep(buf, f, g, cols, cur', len', ox, nx, ny');
      oy' := if next then oy + 1 else oy;
    }

    /** A turn up to the cursor update: the target row is allocated, the source row is known. */
    method TurnHead(buf: array<Row>, ghost src: seq<Cells>, ghost start: int, ghost f: Rewrap.Flow,
                    cols: nat, oy: int, ox: nat, nx: nat, ny: int, c: Cursor, cur: Row, len: nat)
      returns (ny': nat, c': Cursor, cur': Row, len': nat)
      requires Source(src, start) && f.Valid(src, cols) && f.oy < |src|
      requires buf != line && buf != hist && Holds(buf, cols, f)
      requires nx == |f.part| && ny + 1 == f.Count() && oy == start + f.oy && ox == f.ox
      requires nx == 0 ==> f.Count() < buf.Length
      requires forall i | 0 <= i < f.Count() :: buf[i] !in rows
      requires ox > 0 ==> cur == LineAbs(oy) && len == |src[f.oy]|
      requires Rewrap.Waiting(f, cy - start, cx) && c == CursorFor(f.spot, cx, wrapNext, wrapWidth, cols)
      modifies buf
      ensures Source(src, start)
      ensures Begun(buf, cols, f) && ny' == |f.done| < buf.Length
      ensures buf[..f.Count()] == old(buf[..f.Count()])
      ensures if nx == 0 then f.Count() < buf.Length && fresh(buf[ny']) else ny' == ny
      ensures buf[ny'] !in rows
      ensures cur' == LineAbs(oy) && len' == |src[f.oy]| <= cur'.Length && cur'[..len'] == src[f.oy]
      ensures cur' in rows && cur' !in buf[..|f.done| + 1]
      ensures c' == CursorFor(Rewrap.Capture(f, cols, cy - start, cx), cx, wrapNext, wrapWidth, cols)
    {
      hide Holds, Begun, Source, Wired, LineAbs, CursorFor, Rewrap.Waiting, Rewrap.Capture;
      ny' := BeginRow(buf, f, cols, nx, ny);
      cur', len' := ReadLine(src, start, oy, ox, cur, len);
      c' := CaptureCursor(c, cy, wrapWidth, cols, oy, ox, nx, ny', f, cy - start, cx, wrapNext);
      assert forall i | 0 <= i < |f.done| :: buf[i] == buf[..f.Count()][i];
    }

    /** The loop of treflow: buf[0 .. ny] receives the rows of the document re-wrapped to width cols. */
    method RewrapLoop(buf: array<Row>, ghost src: seq<Cells>, start: int, oce: nat, cols: nat, ghost per: nat)
      returns (ny: int, c: Cursor)
      requires Source(src, start) && start + |src| == oce + 1
      requires 0 < cols && 0 < per && Rewrap.Fits(src, cols, per) && per * |src| <= buf.Length
      requires buf != line && buf != hist
      modifies buf
      ensures ny + 1 == |Rewrap.Result(src, cols, cy - start, cx)|
      ensures Full(buf, cols, Rewrap.Result(src, cols, cy - start, cx))
      ensures forall i | 0 <= i <= ny :: fresh(buf[i])
      ensures c == CursorFor(Rewrap.NewSpot(src, cols, cy - start, cx), cx, wrapNext, wrapWidth, cols)
    {
      hide Holds, Source, Wired, LineAbs, CursorFor, Rewrap.Waiting, Rewrap.Step, Rewrap.Budget, Rewrap.Close, Full,
        Rewrap.Fits, Rewrap.Capture;
      ghost var k := cy - start;
      ghost var f, b := Rewrap.START, 0;
      var oy, ox, nx, len := start, 0, 0, 0;
      var cur := line[0];
      ny := -1;
      c := Cursor(-1, cx, wrapNext);
      LoopBegins(buf, src, cols, per);
      while oy <= oce
        invariant Source(src, start) && f.Valid(src, cols)
        invariant Rewrap.Run(src, cols, k, cx, f) == Rewrap.Run(src, cols, k, cx, Rewrap.START)
        invariant Rewrap.Budget(src, cols, per, f, b)
        invariant Holds(buf, cols, f)
        invariant nx == |f.part| && ny + 1 == f.Count() && oy == start + f.oy && ox == f.ox
        invariant forall i | 0 <= i < f.Count() :: fresh(buf[i]) && buf[i] !in rows
        invariant ox > 0 ==> cur == LineAbs(oy) && len == |src[f.oy]|
        invariant Rewrap.Waiting(f, k, cx) && c == CursorFor(f.spot, cx, wrapNext, wrapWidth, cols)
        decreases |src| - f.oy, Rewrap.Left(src, f)
      {
        ghost var g := Rewrap.Step(src, cols, k, cx, f);
        Rewrap.RowsLeft(src, cols, k, cx, per, f, b);
        b := Rewrap.StepCapacity(src, cols, k, cx, per, f, b);
        oy, ox, nx, ny, c, cur, len := LoopTurn(buf, src, start, f, g, cols, oy, ox, nx, ny, c, cur, len);
        f := g;
      }
      CloseRow(buf, f, cols, nx, ny);
    }

    lemma LoopBegins(buf: array<Row>, src: seq<Cells>, cols: nat, per: nat)
      requires 0 < cols && 0 < per && src != [] && Rewrap.Fits(src, cols, per)
      ensures Holds(buf, cols, Rewrap.START)
      ensures Rewrap.Budget(src, cols, per, Rewrap.START, 0)
      ensures forall k: nat :: Rewrap.Waiting(Rewrap.START, k, cx)
      ensures CursorFor(Rewrap.Nowhere, cx, wrapNext, wrapWidth, cols) == Cursor(-1, cx, wrapNext)
    {
      assert |src[0]| <= per * cols;
    }

    // -------------------------------------------------------------------------------------------
    // treflow: placement

    /** "fill visible area": rows 0 .. nce of the new screen are buf[.. ny], the others are blank. */
    method FillScreen(buf: array<Row>, ny: nat, nce: nat, n: nat, cols: nat) returns (lines: array<Row>)
      requires nce < n && nce <= ny < buf.Length && 0 < cols
      ensures fresh(lines) && lines.Length == n
      ensures forall i | 0 <= i <= nce :: lines[i] == buf[ny - nce + i]
      ensures forall i | nce < i < n ::
        fresh(lines[i]) && lines[i].Length == cols && lines[i][..] == Blanks(cols, EMPTY)
      ensures forall i, j | nce < i < j < n :: lines[i] != lines[j]
    {
      var filler := buf[ny];
      lines := new Row[n](_ => filler);
      var i: int := n - 1;
      while i > nce
        invariant nce <= i < n
        invariant forall k | i < k < n ::
          fresh(lines[k]) && lines[k].Length == cols && lines[k][..] == Blanks(cols, EMPTY)
        invariant forall k, j | i < k < j < n :: lines[k] != lines[j]
      {
        lines[i] := new Glyph[cols](_ => EMPTY);
        i := i - 1;
      }
      while i >= 0
        invariant -1 <= i <= nce
        invariant forall k | i < k <= nce :: lines[k] == buf[ny - nce + k]
        invariant forall k | nce < k < n ::
          fresh(lines[k]) && lines[k].Length == cols && lines[k][..] == Blanks(cols, EMPTY)
        invariant forall k, j | nce < k < j < n :: lines[k] != lines[j]
      {
        lines[i] := buf[ny - nce + i];
        i := i - 1;
      }
    }

    /** "fill lines in history buffer": the rows buf[0 .. m - 1], newest last, as far as the ring can hold them. */
    method FillHistory(buf: array<Row>, m: nat)
      requires hist.Length == HISTSIZE && histi < HISTSIZE && m <= buf.Length && buf != hist
      modifies this`histf, hist
      ensures histf == Capped(m)
      ensures Stored(hist[..], histi, HISTSIZE)[HISTSIZE - histf..] == buf[m - histf..m]
    {
      hide Slot, Stored;
      var i, ny: int := -1, m - 1;
      while ny >= 0 && i >= 0 - HISTSIZE
        invariant 0 - HISTSIZE - 1 <= i <= -1 && -1 <= ny && ny == m + i
        invariant Stored(hist[..], histi, HISTSIZE)[HISTSIZE + i + 1..] == buf[m + i + 1..m]
      {
        StoreAt(hist[..], histi, i, buf[ny]);
        SetSlot(i, buf[ny]);
        i := i - 1;
        ny := ny - 1;
      }
      histf := 0 - i - 1;
    }

    /** hist[(histi + y + 1 + HISTSIZE) % HISTSIZE] = r */
    method SetSlot(y: int, r: Row)
      requires hist.Length == HISTSIZE && histi < HISTSIZE && 0 - HISTSIZE <= y < 0
      modifies hist
      ensures hist[..] == old(hist[..])[Slot(histi, y) := r]
    {
      var j := (histi + y + 1 + HISTSIZE) % HISTSIZE;
      hist[j] := r;
    }

    /** "resize rest of the history lines" */
    method ResizeRest(cols: nat)
      requires hist.Length == HISTSIZE && histi < HISTSIZE && histf <= HISTSIZE
      modifies hist
      ensures Stored(hist[..], histi, HISTSIZE)[HISTSIZE - histf..] ==
        old(Stored(hist[..], histi, HISTSIZE))[HISTSIZE - histf..]
      ensures var s := Stored(hist[..], histi, HISTSIZE)[..HISTSIZE - histf];
              NoDup(s) && forall k | 0 <= k < |s| :: fresh(s[k]) && s[k].Length == cols
    {
      hide Slot, Stored;
      ghost var was := Stored(hist[..], histi, HISTSIZE);
      ghost var done: seq<Row> := [];
      var i := 0 - histf - 1;
      while i >= 0 - HISTSIZE
        invariant 0 - HISTSIZE - 1 <= i < 0 - histf
        invariant Stored(hist[..], histi, HISTSIZE)[HISTSIZE + i + 1..] == done + was[HISTSIZE - histf..]
        invariant |done| == 0 - histf - i - 1 && NoDup(done)
        invariant forall k | 0 <= k < |done| :: fresh(done[k]) && done[k].Length == cols
      {
        var j := (histi + i + 1 + HISTSIZE) % HISTSIZE;
        var q := ReallocRow(hist[j], cols);
        StoreAt(hist[..], histi, i, q);
        UpdateTail(Stored(hist[..], histi, HISTSIZE), HISTSIZE + i, q);
        SetSlot(i, q);
        done := [q] + done;
        i := i - 1;
      }
      assert Stored(hist[..], histi, HISTSIZE)[0..] == done + was[HISTSIZE - histf..];
    }

    /** The ring after treflow: the newest of buf[0 .. m - 1], and fresh buffers in the other slots. */
    method FillRing(buf: array<Row>, m: nat, cols: nat)
      requires hist.Length == HISTSIZE && histi < HISTSIZE && m <= buf.Length && buf != hist
      requires NoDup(buf[..m]) && forall i | 0 <= i < m :: buf[i].Length == cols
      modifies this`histf, this`scr, hist
      ensures histf == Capped(m) && scr == Min(old(scr), histf)
      ensures Stored(hist[..], histi, histf) == LastN(buf[..m], HISTSIZE)
      ensures NoDup(hist[..]) && forall k | 0 <= k < HISTSIZE :: hist[k].Length == cols
      ensures forall k | 0 <= k < HISTSIZE :: fresh(hist[k]) || hist[k] in buf[..m]
    {
      hide Slot, Stored;
      FillHistory(buf, m);
      scr := Min(scr, histf);
      ResizeRest(cols);
      ghost var s, cut := Stored(hist[..], histi, HISTSIZE), HISTSIZE - histf;
      assert s[cut..] == buf[m - histf..m];
      RingParts(s, cut, buf[..m], m - histf);
      StoredNoDup(hist[..], histi);
      StoredNewest(hist[..], histi, histf);
      forall k | 0 <= k < HISTSIZE
        ensures hist[k].Length == cols && (fresh(hist[k]) || hist[k] in buf[..m])
      {
        StoredIsOnto(hist[..], histi, k);
        var z := HISTSIZE + Unslot(histi, k);
        assert z < cut ==> s[z] == s[..cut][z];
      }
    }

    /** The rows of buf go to a new array of screen rows and to the ring. */
    method PlaceBuffers(buf: array<Row>, ghost out: seq<Cells>, p: Place, n: nat, cols: nat) returns (lines: array<Row>)
      requires hist.Length == HISTSIZE && histi < HISTSIZE && Full(buf, cols, out) && buf != hist
      requires 0 <= p.nce < n && p.nce <= p.ny < |out| && 0 < cols
      modifies this`histf, this`scr, hist
      ensures fresh(lines) && lines.Length == n && histf == Capped(p.ny - p.nce) && scr == Min(old(scr), histf)
      ensures Separate(lines[..], hist[..])
      ensures forall i | 0 <= i < n :: lines[i].Length == cols && (fresh(lines[i]) || lines[i] in buf[..|out|])
      ensures forall k | 0 <= k < HISTSIZE :: hist[k].Length == cols && (fresh(hist[k]) || hist[k] in buf[..|out|])
      ensures forall i | 0 <= i <= p.nce :: lines[i] == buf[p.ny - p.nce + i]
      ensures forall i | p.nce < i < n :: lines[i][..] == Blanks(cols, EMPTY)
      ensures Stored(hist[..], histi, histf) == LastN(buf[..p.ny - p.nce], HISTSIZE)
    {
      hide Stored, LastN;
      lines := FillScreen(buf, p.ny, p.nce, n, cols);
      var m := p.ny - p.nce;
      ghost var b := buf[..|out|];
      assert forall i | 0 <= i < |out| :: b[i] == buf[i];
      assert buf[..m] == b[..m];
      FillRing(buf, m, cols);
      forall i, j | 0 <= i < n && 0 <= j < HISTSIZE ensures lines[i] != hist[j] {
        if i <= p.nce && hist[j] in buf[..m] {
          assert b[m + i] !in b[..m];
        }
      }
      forall i, j | 0 <= i < j < n ensures lines[i] != lines[j] {
        if j <= p.nce {
          assert b[m + i] != b[m + j];
        } else if i <= p.nce {
          assert lines[i] == b[m + i];
        }
      }
      forall k | 0 <= k < HISTSIZE ensures fresh(hist[k]) || hist[k] in b {
        assert hist[k] in b[..m] ==> hist[k] in b;
      }
    }

    /** The rows of the screen are those placed, with blank ones below them. */
    ghost predicate Installed(buf: array<Row>, p: Place, cols: nat)
      requires 0 <= p.nce <= p.ny < buf.Length
      reads this`line, line, set i | 0 <= i < line.Length :: line[i]
      reads buf
    {
      && (forall i | 0 <= i <= p.nce && i < line.Length :: line[i] == buf[p.ny - p.nce + i])
      && (forall i | p.nce < i < line.Length :: line[i][..] == Blanks(cols, EMPTY))
    }

    method PlaceRowsOf(buf: array<Row>, ghost out: seq<Cells>, p: Place, n: nat, cols: nat)
      requires hist.Length == HISTSIZE && histi < HISTSIZE && Full(buf, cols, out) && buf != hist
      requires 0 <= p.nce < n && p.nce <= p.ny < |out| && 0 < cols
      modifies this`histf, this`scr, this`line, this`row, this`col, this`rows, hist
      ensures Wired() && fresh(line) && line.Length == row == n && col == cols
      ensures histf == Capped(p.ny - p.nce) && scr == Min(old(scr), histf)
      ensures forall r | r in rows :: fresh(r) || r in buf[..|out|]
      ensures Installed(buf, p, cols)
      ensures Stored(hist[..], histi, histf) == LastN(buf[..p.ny - p.nce], HISTSIZE)
    {
      hide Separate, Stored, LastN, Full;
      line := PlaceBuffers(buf, out, p, n, cols);
      row := n;
      col := cols;
      rows := (set i | 0 <= i < n :: line[i]) + (set k | 0 <= k < HISTSIZE :: hist[k]);
    }

    // -------------------------------------------------------------------------------------------
    // treflow and tresizedef

    lemma ValidIsWide()
      requires Valid()
      ensures Wide(history, col) && Wide(screen, col)
    {
    }

    /** The rows the loop reads are the window of the document. */
    lemma WindowIsSource(start: int, oce: nat)
      requires Valid() && cy <= oce < row && 0 - histf <= start <= cy && cx < col
      ensures Source(Window(CurrentPage(), cx, start, oce), start)
    {
      hide Separate, Contents, Stored, Rewrap.ReadRow;
      var src := Window(CurrentPage(), cx, start, oce);
      var doc := history + screen;
      forall i | 0 <= i < |src|
        ensures src[i] == Rewrap.ReadRow(LineAbs(start + i)[..], if start + i == cy then cx + 1 else 0)
      {
        assert doc[histf + start..histf + oce + 1][i] == doc[histf + start + i];
        DocumentRow(start + i);
      }
      WindowFits(CurrentPage(), cx, col, 1, start, oce);
    }

    lemma DocumentRow(y: int)
      requires Valid() && 0 - histf <= y < row
      ensures (history + screen)[histf + y] == LineAbs(y)[..]
    {
    }

    /** "y coordinate of cursor line end" */
    method CursorLineEnd() returns (oce: nat)
      requires Valid() && cy < row
      ensures oce == LineEnd(screen, cy)
    {
      hide IsWrapped;
      oce := cy;
      while oce < row - 1
        invariant cy <= oce < row
        invariant LineEnd(screen, cy) == LineEnd(screen, oce)
      {
        var wrapped := TIsWrapped(line[oce]);
        if !wrapped {
          break;
        }
        oce := oce + 1;
      }
    }

    /** Size of buf and first row to read. */
    method PlanWindow(oce: nat, n: nat, cols: nat) returns (nlines: nat, oy: int)
      requires 0 < cols
      ensures nlines == Capacity(histf, oce, col, cols, n) && oy == Start(histf, oce, col, cols, n)
    {
      oy := 0 - histf;
      nlines := histf + oce + 1;
      if cols < col {
        var j := (col + cols - 1) / cols;
        nlines := j * nlines;
        if nlines > HISTSIZE + RESIZEBUFFER + n {
          nlines := HISTSIZE + RESIZEBUFFER + n;
          oy := 0 - (nlines / j - oce - 1);
        }
      }
    }

    /** Where the rows written go: new line end, new cursor row, last row kept. */
    method PlanRows(ny: nat, at: nat, oce: nat, n: nat) returns (p: Place)
      requires at <= ny && 0 < n
      ensures p == PlaceRows(ny, at, oce, row, n)
    {
      var bot := Min(ny, n - 1);
      var up := Max(n - row, 0);
      var nce := Min(oce + up, bot);
      var y := nce - (ny - at);
      var last := ny;
      if y < 0 {
        var j := nce;
        nce := Min(nce - y, bot);
        y := y + nce - j;
        ghost var d := last + y;
        while y < 0
          invariant y <= 0 && last + y == d
          decreases 0 - y
        {
          last := last - 1;
          y := y + 1;
        }
      }
      p := Place(nce, y, last);
    }

    /** treflow up to the end of its loop */
    method RewrapDocument(cols: nat, n: nat, ghost plan: Plan) returns (buf: array<Row>, ny: nat, c: Cursor, oce: nat)
      requires Valid() && cols != col && Reflowable(CurrentPage(), cx, col, cols, n)
      requires plan == PlanReflow(CurrentPage(), cx, col, cols, n)
      ensures fresh(buf) && Full(buf, cols, plan.out) && ny + 1 == |plan.out| && oce == LineEnd(screen, cy)
      ensures forall i | 0 <= i <= ny :: fresh(buf[i])
      ensures c == CursorFor(plan.spot, cx, wrapNext, wrapWidth, cols)
    {
      hide PlanReflow, PlaceRows, Start, Capacity, LineEnd, Source, Wired, Full, Rewrap.Result, Rewrap.NewSpot,
        Window, CursorFor;
      oce := CursorLineEnd();
      var nlines, oy := PlanWindow(oce, n, cols);
      PlanParts(CurrentPage(), cx, col, cols, n);
      CapacitySuffices(histf, oce, col, cols, n);
      WindowIsSource(oy, oce);
      ValidIsWide();
      WindowFits(CurrentPage(), cx, col, cols, oy, oce);
      var filler := AnyRow();
      buf := new Row[nlines](_ => filler);
      var last;
      last, c := RewrapLoop(buf, plan.src, oy, oce, cols, Per(col, cols));
      ny := last;
    }

    method AnyRow() returns (r: Row)
      requires Valid()
      ensures r in rows
    {
      r := line[0];
    }

    /** treflow after its loop: the rows written become the screen and the history. */
    method InstallRows(buf: array<Row>, ghost out: seq<Cells>, p: Place, n: nat, cols: nat)
      requires Valid() && Full(buf, cols, out) && buf != hist
      requires 0 <= p.nce < n && p.nce <= p.ny < |out| && 0 < cols
      modifies this`histf, this`scr, this`line, this`row, this`col, this`rows, this`screen, this`history, hist
      ensures Valid() && row == n && col == cols && fresh(line) && scr == Min(old(scr), histf)
      ensures forall r | r in rows :: fresh(r) || r in buf[..|out|]
      ensures screen == NewScreen(out, p, n, Blanks(cols, EMPTY)) && history == NewHistory(out, p)
    {
      assert hist.Length == HISTSIZE && histi < HISTSIZE;
      hide Wired, Full, NewScreen, NewHistory, Contents, Stored, LastN, Installed, Blanks;
      PlaceRowsOf(buf, out, p, n, cols);
      screen := NewScreen(out, p, n, Blanks(cols, EMPTY));
      history := NewHistory(out, p);
      InstalledScreen(buf, out, p, cols);
      InstalledHistory(buf, out, p, cols);
    }

    lemma InstalledScreen(buf: array<Row>, out: seq<Cells>, p: Place, cols: nat)
      requires Full(buf, cols, out) && 0 <= p.nce < line.Length && p.nce <= p.ny < |out|
      requires p.ny < buf.Length && Installed(buf, p, cols)
      ensures Contents(line[..]) == NewScreen(out, p, line.Length, Blanks(cols, EMPTY))
    {
      var a, b := Contents(line[..]), NewScreen(out, p, line.Length, Blanks(cols, EMPTY));
      forall i | 0 <= i < line.Length ensures a[i] == b[i] {
        assert a[i] == line[i][..];
        assert i <= p.nce ==> b[i] == out[p.ny - p.nce + i];
      }
    }

    lemma InstalledHistory(buf: array<Row>, out: seq<Cells>, p: Place, cols: nat)
      requires Full(buf, cols, out) && 0 <= p.nce <= p.ny < |out|
      ensures Contents(LastN(buf[..p.ny - p.nce], HISTSIZE)) == NewHistory(out, p)
    {
      var b := buf[..p.ny - p.nce];
      assert Contents(b) == out[..p.ny - p.nce];
      assert Contents(LastN(b, HISTSIZE)) == LastN(Contents(b), HISTSIZE);
    }

    /** treflow, followed by the size update of tresizedef */
    method TReflow(cols: nat, n: nat)
      requires Valid() && scr <= histf && cols != col
      requires Reflowable(CurrentPage(), cx, col, cols, n)
      modifies this`row, this`col, this`line, this`histf, this`scr, this`cx, this`cy, this`wrapNext
      modifies this`screen, this`history, this`rows, hist
      ensures Valid() && row == n && col == cols && cx < cols && scr <= histf
      ensures fresh(line) && forall r | r in rows :: fresh(r)
      ensures var p := old(PlanReflow(CurrentPage(), cx, col, cols, n));
              && history == NewHistory(p.out, p.place)
              && screen == NewScreen(p.out, p.place, n, Blanks(cols, EMPTY))
              && cy == p.place.cy
              && Cursor(p.spot.y, cx, wrapNext) == Resolved(p.spot.y, p.spot.x, old(wrapNext), wrapWidth, cols)
              && scr == Min(old(scr), |history|)
    {
      hide PlanReflow, PlaceRows, NewScreen, NewHistory, LineEnd, Core, Full, Rewrap.Result, Rewrap.SameCell,
        Rewrap.NewSpot;
      hide Reflowable, Wide, Window, Start, Per;
      ghost var plan := PlanReflow(CurrentPage(), cx, col, cols, n);
      PlanParts(CurrentPage(), cx, col, cols, n);
      var buf, ny, c, oce := RewrapDocument(cols, n, plan);
      var p := PlanRows(ny, c.y, oce, n);
      InstallRows(buf, plan.out, p, n, cols);
      cx, wrapNext := c.x, c.wrapNext;
      cy := p.cy;
    }

    // -------------------------------------------------------------------------------------------
    // The screen as a value

    ghost function Value(): Screen
      reads this`history, this`screen, this`scr, this`sel, this`cy, this`cx, this`wrapNext, this`wrapWidth
      reads this`top, this`bot, this`col, this`fg, this`bg, this`attrs
    {
      Screen(State(), cy, cx, wrapNext, wrapWidth, top, bot, col, fg, bg, attrs)
    }

    /** What every operation keeps. */
    ghost predicate Consistent()
      reads this`row, this`col, this`line, this`hist, this`histi, this`histf, this`screen, this`history, this`rows
      reads this`scr, this`cx, this`cy, this`top, this`bot, line, hist, rows
      ensures Consistent() ==>
                && Valid() && scr <= histf && cx < col && cy < row && top <= bot < row
                && Wide(history, col) && Wide(screen, col)
    {
      Valid() && scr <= histf && cx < col && cy < row && top <= bot < row
    }

    method TResizeDef(cols: nat, n: nat)
      requires Consistent() && Possible(Value(), Resize(cols, n)) && 0 < cols && 0 < n
      modifies this, line, hist, rows
      ensures Consistent() && row == n && Value() == Apply(old(Value()), Resize(cols, n))
      ensures hist == old(hist) && (line == old(line) || fresh(line)) && fresh(rows - old(rows))
    {
      hide Valid, Reflowed, Heightened, CursorInWindow;
      if col == cols && row == n {
        return;
      }
      if cols != col {
        ReflowConsistent(cols, n);
      } else {
        ResizeConsistent(n);
      }
    }

    /** selremove, but on the alternate screen */
    method Deselect()
      modifies this`sel
      ensures sel == if old(sel).alt then old(sel) else old(sel).Remove()
    {
      if !sel.alt {
        sel := sel.Remove();
      }
    }

    /** The screen is that of the plan once it has its parts. */
    lemma ReflowedIs(v: Screen, w: Screen, cols: nat, n: nat)
      requires v.Valid() && Reflowable(v.Page(), v.cx, v.col, cols, n)
      requires var p := PlanReflow(v.Page(), v.cx, v.col, cols, n);
        && w.main.history == NewHistory(p.out, p.place) && w.main.scr == Min(v.main.scr, |w.main.history|)
        && w.main.screen == NewScreen(p.out, p.place, n, Blanks(cols, EMPTY)) && w.cy == p.place.cy
        && Cursor(p.spot.y, w.cx, w.wrapNext) == Resolved(p.spot.y, p.spot.x, v.wrapNext, v.wrapWidth, cols)
      requires w.main.sel == if v.main.sel.alt then v.main.sel else v.main.sel.Remove()
      requires w == v.(main := w.main, cy := w.cy, cx := w.cx, wrapNext := w.wrapNext, top := 0, bot := n - 1,
        col := cols)
      ensures w == Reflowed(v, cols, n)
    {
      hide NewHistory, NewScreen, PlanReflow, Resolved, Min, Screen.Valid, Reflowable;
    }

    lemma ValueReflowable(cols: nat, n: nat)
      requires Consistent() && 0 < cols && 0 < n && CursorInWindow(CurrentPage(), col, cols, n)
      ensures Value().Valid() && Reflowable(CurrentPage(), cx, col, cols, n)
    {
      hide CursorInWindow;
    }

    method ReflowConsistent(cols: nat, n: nat)
      requires Consistent() && 0 < cols && 0 < n && cols != col && CursorInWindow(CurrentPage(), col, cols, n)
      modifies this`row, this`col, this`line, this`histf, this`scr, this`cx, this`cy, this`wrapNext, this`sel
      modifies this`screen, this`history, this`rows, this`top, this`bot, hist
      ensures Consistent() && row == n && fresh(line) && fresh(rows - old(rows))
      ensures Value() == Reflowed(old(Value()), cols, n)
    {
      hide Valid, NewHistory, NewScreen, Rewrap.Result, LineEnd, Start, Per, PlaceRows, Rewrap.SameCell, PlanReflow,
        Wide, CursorInWindow, Screen.Valid, Resolved, Min, Blanks, Sel.Remove, Reflowed, Reflowable;
      ValueReflowable(cols, n);
      Deselect();
      TReflow(cols, n);
      top, bot := 0, n - 1;
      ReflowedIs(old(Value()), Value(), cols, n);
    }

    method ResizeConsistent(n: nat)
      requires Consistent() && 0 < n && n != row
      modifies this`row, this`line, this`histi, this`histf, this`scr, this`cy, this`sel, this`top, this`bot
      modifies this`screen, this`history, this`rows, line, hist, rows
      ensures Consistent() && row == n && fresh(line) && fresh(rows - old(rows))
      ensures Value() == Heightened(old(Value()), n)
    {
      hide Core, ResizeMain, ResizeHeight, Wide, Screen.Valid;
      ResizedViewStaysInHistory(State(), cy, n, col, BlankRow(), Blanks(col, EMPTY));
      ResizeRows(n);
      top, bot := 0, n - 1;
    }

    // -------------------------------------------------------------------------------------------
    // Start and runs

    /** tnew and treset: a blank screen and an empty ring. */
    constructor (cols: nat, n: nat)
      requires 0 < cols && 0 < n
      ensures Consistent() && Value().Neat() && row == n && history == [] && screen == Repeat(n, Blanks(cols, EMPTY))
      ensures fresh(line) && fresh(hist) && fresh(rows) && scr == 0 && !sel.Active()
    {
      hide NoDup, Wired, Core, Rewrap.Clean, Repeat, Stored, Wide;
      row, col, top, bot := n, cols, 0, n - 1;
      histi, histf, scr, cx, cy, wrapNext, wrapWidth := 0, 0, 0, 0, 0, false, 1;
      fg, bg, attrs, sel := DEFAULT_FG, DEFAULT_BG, 0, Sel(-1, 0, 0, 0, 0, 0, 0, 0, true, false, false);
      screen, history := Repeat(n, Blanks(cols, EMPTY)), [];
      var pool := BlankRows(n + HISTSIZE, cols);
      line := new Row[n](i requires 0 <= i < n => pool[i]);
      hist := new Row[HISTSIZE](i requires 0 <= i < HISTSIZE => pool[n + i]);
      rows := set r | r in pool;
      new;
      BlankIsWired(pool);
      BlankIsTidy(n, cols);
      ValidIsWide();
    }

    lemma BlankIsWired(pool: seq<Row>)
      requires 0 < row == line.Length && 0 < col && hist.Length == HISTSIZE && histi < HISTSIZE && line != hist
      requires |pool| == row + HISTSIZE && NoDup(pool)
      requires forall i | 0 <= i < |pool| :: pool[i] in rows && pool[i][..] == Blanks(col, EMPTY)
      requires forall i | 0 <= i < row :: line[i] == pool[i]
      requires forall i | 0 <= i < HISTSIZE :: hist[i] == pool[row + i]
      requires screen == Repeat(row, Blanks(col, EMPTY)) && history == []
      ensures Core(0)
    {
      assert forall i | 0 <= i < |pool| :: pool[i].Length == |pool[i][..]|;
      assert Stored(hist[..], histi, 0) == [];
    }

    /** tmoveto, without origin mode */
    method TMoveTo(x: int, y: int)
      requires Consistent()
      modifies this`cx, this`cy, this`wrapNext
      ensures Consistent() && Value() == Gone(old(Value()), x, y)
    {
      hide Valid;
      wrapNext := false;
      cx := Min(Max(x, 0), col - 1);
      cy := Min(Max(y, 0), row - 1);
    }

    /** tsetscroll */
    method TSetScroll(t: int, b: int)
      requires Consistent()
      modifies this`top, this`bot
      ensures Consistent() && Value() == Bounded(old(Value()), t, b)
    {
      hide Valid;
      var t', b' := Min(Max(t, 0), row - 1), Min(Max(b, 0), row - 1);
      if t' > b' {
        t', b' := b', t';
      }
      top, bot := t', b';
    }

    /** tnewline */
    method TNewLine(firstCol: bool)
      requires Consistent()
      modifies this`histi, this`histf, this`scr, this`sel, this`screen, this`history, this`cx, this`cy, this`wrapNext
      modifies line, hist, rows
      ensures Consistent() && Value() == LineFed(old(Value()), firstCol)
    {
      hide Valid, Consistent, ScrollUp, Screen.Valid;
      var y := cy;
      if y == bot {
        ScrollConsistent(top, bot, 1, SaveHist);
      } else {
        y := y + 1;
      }
      TMoveTo(if firstCol then 0 else cx, y);
    }

    method ScrollConsistent(t: nat, b: nat, n: int, mode: ScrollMode)
      requires Consistent() && t <= b < row
      modifies this`histi, this`histf, this`scr, this`sel, this`screen, this`history, line, hist, rows
      ensures Consistent()
      ensures State() == ScrollUp(old(State()), t, b, n, mode != NoSaveHist, col, BlankRow())
    {
      hide Core, ScrollUp, Screen.Valid;
      ViewStaysInHistory(State(), t, b, n, mode != NoSaveHist, col, BlankRow());
      TScrollUp(t, b, n, mode);
    }

    method DropConsistent(t: nat, n: int)
      requires Consistent() && t <= bot
      modifies this`sel, this`screen, line, rows
      ensures Consistent()
      ensures State() == ScrollDown(old(State()), t, bot, n, col, BlankRow())
    {
      hide Core, ScrollDown, Screen.Valid;
      TScrollDown(t, n);
    }

    method PutGlyph(y: nat, x: nat, g: Glyph)
      requires Valid() && y < row && x < col
      modifies this`screen, line[y]
      ensures Valid() && screen == Put(old(screen), y, x, g)
    {
      assert line[y] in line[..];
      line[y][x] := g;
      screen := Put(screen, y, x, g);
    }

    /** gp->mode |= ATTR_WRAP at the cursor */
    method MarkCursor()
      requires Consistent()
      modifies this`screen, rows
      ensures Consistent() && screen == Mark(old(screen), cy, cx)
    {
      assert line[cy] in rows && screen[cy] == line[cy][..];
      PutGlyph(cy, cx, line[cy][cx].(wrap := true));
    }

    method PutAtCursor(g: Glyph)
      requires Consistent()
      modifies this`screen, rows
      ensures Consistent() && screen == Put(old(screen), cy, cx, g)
    {
      assert line[cy] in rows;
      PutGlyph(cy, cx, g);
    }

    /** The part of tputc before the character is stored: a pending wrap is carried out. */
    method WrapPending(wraps: bool)
      requires Consistent()
      modifies this`histi, this`histf, this`scr, this`sel, this`screen, this`history, this`cx, this`cy, this`wrapNext
      modifies line, hist, rows
      ensures Consistent()
      ensures State() == Opening(old(State()), old(Value().Pen()), wraps, top, bot, col, BlankRow())
      ensures Value().Pen() == Target(old(Value().Pen()), wraps, bot, row)
    {
      hide Valid, Consistent, LineFeed;
      if wraps && wrapNext {
        MarkCursor();
        TNewLine(true);
      }
    }

    /** The rest of tputc: the character is stored and the cursor moves on. */
    method StoreChar(g: Glyph)
      requires Consistent() && !g.wrap
      modifies this`screen, this`cx, this`cy, this`wrapNext, this`wrapWidth, rows
      ensures Consistent() && State() == old(State()).(screen := Put(old(screen), old(cy), old(cx), g))
      ensures Value().Pen() == Advanced(old(Value().Pen()), col)
      ensures wrapWidth == if wrapNext then 1 else old(wrapWidth)
    {
      hide Valid, Put;
      PutAtCursor(g);
      if cx + 1 < col {
        TMoveTo(cx + 1, cy);
      } else {
        wrapWidth := 1;
        wrapNext := true;
      }
    }

    /** selclear, when the selection touches the cursor's cell */
    method Unselect()
      requires Consistent()
      modifies this`sel
      ensures Consistent() && State() == Unselected(old(State()), cy, cx)
    {
      hide Valid;
      if sel.Touches(cx + scr, cy + scr, cx + scr, cy + scr) {
        sel := sel.Remove();
      }
    }

    lemma ConsistentValid()
      requires Consistent()
      ensures Value().Valid()
    {
      hide Valid;
    }

    /** What tputc leaves, from its three steps. */
    lemma TypedIs(v: Screen, begun: Main, w: Screen, u: nat, wraps: bool)
      requires v.Valid()
      requires begun == Opening(Unselected(v.main, v.cy, v.cx), v.Pen(), wraps, v.top, v.bot, v.col, v.BlankRow())
      requires var t := Target(v.Pen(), wraps, v.bot, v.Rows());
        && t.y < |begun.screen| && t.x < v.col && Wide(begun.screen, v.col)
        && w.main == begun.(screen := Put(begun.screen, t.y, t.x, Glyph(u, true, false, v.attrs, v.fg, v.bg)))
        && w.Pen() == Advanced(t, v.col) && w.wrapWidth == if w.wrapNext then 1 else v.wrapWidth
      requires w == v.(main := w.main, cy := w.cy, cx := w.cx, wrapNext := w.wrapNext, wrapWidth := w.wrapWidth)
      ensures w == Typed(v, u, wraps)
    {
      hide Opening, Put, Advanced, Target, Wide;
    }

    /** tputc for a printable character one column wide, without insert mode; `wraps` is MODE_WRAP */
    method TPutC(u: nat, wraps: bool)
      requires Consistent()
      modifies this`histi, this`histf, this`scr, this`sel, this`screen, this`history
      modifies this`cx, this`cy, this`wrapNext, this`wrapWidth, line, hist, rows
      ensures Consistent() && Value() == Typed(old(Value()), u, wraps)
    {
      hide Valid, Consistent, Screen.Valid, Opening, Put, Advanced, Target, Wide, Unselected, Typed;
      ConsistentValid();
      Unselect();
      WrapPending(wraps);
      ghost var begun := State();
      StoreChar(Glyph(u, true, false, attrs, fg, bg));
      TypedIs(old(Value()), begun, Value(), u, wraps);
    }

    /** The cells of the cursor's row from x1 to x2 were cleared. */
    method ClearedColumns(x1: nat, x2: nat)
      requires Consistent()
      modifies this`sel
      ensures Consistent()
      ensures sel == if old(sel).Touches(x1 + scr, cy + scr, x2 + scr, cy + scr) then old(sel).Remove() else old(sel)
    {
      hide Valid;
      if sel.Touches(x1 + scr, cy + scr, x2 + scr, cy + scr) {
        sel := sel.Remove();
      }
    }

    /** The row of the cursor is edited in place. */
    method DeleteTo(src: nat)
      requires Valid() && cy < row && cx < src <= col
      modifies this`screen, line[cy]
      ensures Valid()
      ensures screen == old(screen)[cy := DeleteChars(old(screen[cy]), cx, src - cx, Blank(fg, bg))]
    {
      hide DeleteChars;
      assert line[cy] in line[..] && screen[cy] == line[cy][..];
      DeleteInRow(line[cy], cx, src, Blank(fg, bg));
      screen := screen[cy := line[cy][..]];
    }

    method InsertTo(dst: nat)
      requires Valid() && cy < row && cx < dst <= col
      modifies this`screen, line[cy]
      ensures Valid()
      ensures screen == old(screen)[cy := InsertBlanks(old(screen[cy]), cx, dst - cx, Blank(fg, bg))]
    {
      hide InsertBlanks;
      assert line[cy] in line[..] && screen[cy] == line[cy][..];
      InsertInRow(line[cy], cx, dst, Blank(fg, bg));
      screen := screen[cy := line[cy][..]];
    }

    /** The characters of tdeletechar. */
    method DeleteHere(n: int) returns (x: nat)
      requires Consistent() && n > 0
      modifies this`screen, rows
      ensures Consistent() && x == col - Least(n, col - cx)
      ensures screen == old(screen)[cy := DeleteChars(old(screen[cy]), cx, n, Blank(fg, bg))]
    {
      assert line[cy] in rows;
      hide Core, DeleteChars, InsertBlanks;
      var src := Min(cx + n, col);
      DeletedAlike(screen[cy], cx, n, Blank(fg, bg));
      DeleteTo(src);
      x := cx + (col - src);
    }

    /** tdeletechar */
    method TDeleteChar(n: int)
      requires Consistent()
      modifies this`sel, this`screen, rows
      ensures Consistent() && Value() == Deleted(old(Value()), n)
    {
      hide Valid, Consistent, DeleteChars, Least, Wide;
      if n <= 0 {
        return;
      }
      var x := DeleteHere(n);
      ClearedColumns(x, col - 1);
    }

    /** The blanks of tinsertblank. */
    method InsertHere(n: int) returns (x: nat)
      requires Consistent() && n > 0
      modifies this`screen, rows
      ensures Consistent() && x == cx + Least(n, col - cx) - 1
      ensures screen == old(screen)[cy := InsertBlanks(old(screen[cy]), cx, n, Blank(fg, bg))]
    {
      assert line[cy] in rows;
      hide Core, DeleteChars, InsertBlanks;
      var dst := Min(cx + n, col);
      DeletedAlike(screen[cy], cx, n, Blank(fg, bg));
      InsertTo(dst);
      x := dst - 1;
    }

    /** tinsertblank */
    method TInsertBlank(n: int)
      requires Consistent()
      modifies this`sel, this`screen, rows
      ensures Consistent() && Value() == Inserted(old(Value()), n)
    {
      hide Valid, Consistent, InsertBlanks, Least, Wide;
      if n <= 0 {
        return;
      }
      var x := InsertHere(n);
      ClearedColumns(cx, x);
    }

    /** The events that change no more than the row of the cursor and the cursor. */
    method Edit(e: Event)
      requires Consistent() && (e.Print? || e.DeleteChar? || e.InsertBlank? || e.Goto? || e.Region? || e.Attr?)
      modifies this, line, hist, rows
      ensures Consistent() && Value() == Apply(old(Value()), e)
      ensures hist == old(hist) && line == old(line) && rows == old(rows)
    {
      hide Valid, Consistent, Typed, Gone, Bounded, Deleted, Inserted;
      match e
      case Print(u, wraps) => TPutC(u, wraps);
      case Attr(f, b, a) => SetAttr(f, b, a);
      case DeleteChar(n) => TDeleteChar(n);
      case InsertBlank(n) => TInsertBlank(n);
      case Goto(x, y) => TMoveTo(x, y);
      case Region(t, b) => TSetScroll(t, b);
    }

    /** The events that scroll the region. */
    method Scroll(e: Event)
      requires Consistent() && (e.Up? || e.Down? || e.NewLine? || e.DeleteLine? || e.InsertLine?)
      modifies this, line, hist, rows
      ensures Consistent() && Value() == Apply(old(Value()), e)
      ensures hist == old(hist) && line == old(line) && rows == old(rows)
    {
      hide Valid, Consistent, ScrollUp, ScrollDown, LineFed;
      match e
      case Up(n) => ScrollConsistent(top, bot, n, SaveHist);
      case Down(n) => DropConsistent(top, n);
      case NewLine(first) => TNewLine(first);
      case DeleteLine(n) =>
        if top <= cy <= bot {
          ScrollConsistent(cy, bot, n, NoSaveHist);
        }
      case InsertLine(n) =>
        if top <= cy <= bot {
          DropConsistent(cy, n);
        }
    }

    /** Every event does to the arrays what it does to the value. */
    method Perform(e: Event)
      requires Consistent() && Possible(Value(), e)
      modifies this, line, hist, rows
      ensures Consistent() && Value() == Apply(old(Value()), e)
      ensures hist == old(hist) && (line == old(line) || fresh(line)) && fresh(rows - old(rows))
    {
      hide Valid, Consistent, Typed, ScrollUp, ScrollDown, LineFed, Gone, Bounded, Heightened, Reflowed, Deleted,
        Inserted, CursorInWindow;
      match e
      case ViewUp(n) => ViewConsistent(n, true);
      case ViewDown(n) => ViewConsistent(n, false);
      case Resize(cols, n) => TResizeDef(cols, n);
      case Up(_) => Scroll(e);
      case Down(_) => Scroll(e);
      case NewLine(_) => Scroll(e);
      case DeleteLine(_) => Scroll(e);
      case InsertLine(_) => Scroll(e);
      case _ => Edit(e);
    }

    method SetAttr(f: nat, b: nat, a: nat)
      requires Consistent()
      modifies this`fg, this`bg, this`attrs
      ensures Consistent() && Value() == Apply(old(Value()), Attr(f, b, a))
    {
      hide Valid;
      fg, bg, attrs := f, b, a;
    }

    method ViewConsistent(n: int, up: bool)
      requires Consistent()
      modifies this`scr, this`sel
      ensures Consistent() && Value() == Apply(old(Value()), if up then ViewUp(n) else ViewDown(n))
    {
      ConsistentValid();
      hide Core, Wide, Screen.Valid, SelFollowing, Request;
      if up {
        KScrollUp(n);
      } else {
        KScrollDown(n);
      }
    }

    /** A run on the arrays is the run on values. */
    method Run(es: seq<Event>)
      requires Consistent() && PossibleRun(Value(), es)
      modifies this, line, hist, rows
      ensures Consistent() && Value() == After(old(Value()), es)
      ensures old(Value().Neat() && Careful(Value(), es)) ==> Value().Neat()
    {
      hide Consistent, Apply, Possible;
      ghost var v := Value();
      RunKeeps(v, es);
      for i := 0 to |es|
        invariant Consistent() && PossibleRun(Value(), es[i..]) && After(Value(), es[i..]) == After(v, es)
        invariant hist == old(hist) && (line == old(line) || fresh(line)) && fresh(rows - old(rows))
      {
        assert es[i..][1..] == es[i + 1..];
        Perform(es[i]);
      }
    }
  }

  /** Row buffers of blank cells, all different. */
  method BlankRows(n: nat, cols: nat) returns (pool: seq<Row>)
    ensures |pool| == n && NoDup(pool)
    ensures forall i | 0 <= i < n :: fresh(pool[i]) && pool[i][..] == Blanks(cols, EMPTY)
  {
    pool := [];
    while |pool| < n
      invariant |pool| <= n && NoDup(pool)
      invariant forall i | 0 <= i < |pool| :: fresh(pool[i]) && pool[i][..] == Blanks(cols, EMPTY)
    {
      var r := new Glyph[cols](_ => EMPTY);
      assert r !in pool;
      pool := pool + [r];
    }
  }

  /** "update cursor" */
  method CaptureCursor(c: Cursor, cy: int, width: nat, cols: nat, oy: int, ox: nat, nx: nat, ny: nat,
                       ghost f: Rewrap.Flow, ghost k: nat, ghost x0: nat, ghost wrap0: bool) returns (c': Cursor)
    requires nx == |f.part| < cols && ny == |f.done| && ox == f.ox && (oy == cy <==> f.oy == k)
    requires Rewrap.Waiting(f, k, x0) && c == CursorFor(f.spot, x0, wrap0, width, cols)
    ensures c' == CursorFor(Rewrap.Capture(f, cols, k, x0), x0, wrap0, width, cols)
  {
    c' := c;
    if oy == cy && c.y < 0 && c.x - ox < cols - nx {
      c' := Cursor(ny, nx + c.x - ox, c.wrapNext);
      if c'.wrapNext && c'.x + width < cols {
        c' := Cursor(c'.y, c'.x + width, false);
      }
    }
  }
}
