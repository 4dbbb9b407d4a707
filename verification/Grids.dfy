/**
  * The grid, gaplessgrid and nrowgrid layouts of vanitygaps.c: windows in rows and columns, pixels that do
  * not divide evenly going to the first rows and columns.
  */
module Grids {
  import opened Tilings

  /** C's division of an int by a positive int. */
  function Div(a: int, b: nat): int
    requires b > 0
  {
    if a >= 0 then a / b else 0 - (0 - a) / b
  }

  /** The quotient is cut off towards zero. */
  lemma DivIs(a: int, b: nat)
    requires b > 0
    ensures a >= 0 ==> Div(a, b) * b <= a < (Div(a, b) + 1) * b
    ensures a <= 0 ==> (Div(a, b) - 1) * b < a <= Div(a, b) * b
  {
    var c: nat := if a >= 0 then a else 0 - a;
    var q := Quot(c, b);
    assert a >= 0 ==> Div(a, b) == q;
    assert a < 0 ==> Div(a, b) + q == 0;
    hide Div, Quot;
    QuotIs(c, b);
    Negated(q, b);
    if a == 0 {
      QuotZero(b);
    }
  }

  lemma QuotIs(m: nat, k: nat)
    requires k > 0
    ensures Quot(m, k) * k <= m < (Quot(m, k) + 1) * k
  {
    ShareOf(m, k);
  }

  lemma QuotZero(k: nat)
    requires k > 0
    ensures Quot(0, k) == 0
  {
  }

  lemma Negated(q: nat, b: nat)
    ensures (0 - q) * b == 0 - q * b && (0 - q - 1) * b == 0 - (q + 1) * b
    ensures b > 0 && q == 0 ==> (q - 1) * b < 0 == q * b
  {
  }

  /** The first number whose square reaches n, as the loops of grid and gaplessgrid find it. */
  method Root(n: nat) returns (r: nat)
    ensures IsRoot(n, r)
  {
    r := 0;
    while r <= n / 2
      invariant r <= n / 2 + 1
      invariant forall k: nat | k < r :: k * k < n
    {
      if r * r >= n {
        SquareBelow(n, r);
        return;
      }
      SquareBelow(n, r + 1);
      forall k: nat | k < r + 1 ensures k * k < n {
      }
      r := r + 1;
    }
    SquareBelow(n, r);
  }

  predicate IsRoot(n: nat, r: nat) {
    r * r >= n && (r > 0 ==> (r - 1) * (r - 1) < n)
  }

  lemma SquareBelow(n: nat, r: nat)
    ensures r == n / 2 + 1 ==> r * r >= n
    ensures r > 0 ==> (r - 1) * (r - 1) == r * r - 2 * r + 1
  {
    if r == n / 2 + 1 {
      assert r * r >= 2 * r - 1;
    }
  }

  // ---------------------------------------------------------------------------------------------
  // A length cut in k equal parts a gap apart

  /** What is left of a length once the gaps between k parts are taken off. */
  function Size(len: int, k: nat, gap: nat): int {
    len - gap * (k - 1)
  }

  /** The whole pixels of a part. */
  function Whole(len: int, k: nat, gap: nat): int {
    Div(Size(len, k, gap), One(k))
  }

  /** The pixels that do not divide evenly. */
  function Left(len: int, k: nat, gap: nat): int {
    Size(len, k, gap) - Whole(len, k, gap) * k
  }

  /** i steps of d pixels, the first ones a pixel longer. */
  function Skip(i: nat, d: int, left: int): int {
    i * d + Min(i, left)
  }

  function One(k: nat): (r: nat)
    ensures r > 0
  {
    if k > 0 then k else 1
  }

  /** The length of part i: the first ones get a pixel of the rest. */
  function Part(len: int, k: nat, gap: nat, i: nat): int {
    Whole(len, k, gap) + if i < Left(len, k, gap) then 1 else 0
  }

  /** Where part i starts, when parts are put step apart. */
  function Start(len: int, k: nat, gap: nat, step: nat, i: nat): int {
    Skip(i, Whole(len, k, gap) + step, Left(len, k, gap))
  }

  lemma SkipNext(i: nat, d: int, left: int)
    ensures left >= 0 ==>
      Skip(0, d, left) == 0 && Skip(i + 1, d, left) == Skip(i, d, left) + d + if i < left then 1 else 0
  {
    assert (i + 1) * d == i * d + d;
  }

  lemma LeftRange(len: int, k: nat, gap: nat)
    requires k > 0 && Size(len, k, gap) >= 0
    ensures 0 <= Left(len, k, gap) < k && Whole(len, k, gap) >= 0
  {
    hide Size;
  }

  lemma StartNext(len: int, k: nat, gap: nat, step: nat, i: nat)
    requires k > 0 && Size(len, k, gap) >= 0
    ensures Start(len, k, gap, step, 0) == 0
    ensures Start(len, k, gap, step, i + 1) == Start(len, k, gap, step, i) + Part(len, k, gap, i) + step
    ensures Part(len, k, gap, i) >= 0
  {
    LeftRange(len, k, gap);
    hide Skip, Whole, Left;
    SkipNext(i, Whole(len, k, gap) + step, Left(len, k, gap));
  }

  /** With the parts a step apart the last one misses the end of the length by what step and gap differ. */
  lemma StartLast(len: int, k: nat, gap: nat, step: nat)
    requires k > 0 && Size(len, k, gap) >= 0
    ensures Start(len, k, gap, step, k - 1) + Part(len, k, gap, k - 1) == len + (step - gap) * (k - 1)
  {
    LeftRange(len, k, gap);
    var d, r := Whole(len, k, gap), Left(len, k, gap);
    assert Size(len, k, gap) == d * k + r;
    assert (k - 1) * (d + step) == (k - 1) * d + (k - 1) * step;
    assert (step - gap) * (k - 1) == step * (k - 1) - gap * (k - 1);
    assert d * k == (k - 1) * d + d;
  }

  /** The parts differ by a pixel at most, and the longer ones come first. */
  lemma PartsEven(len: int, k: nat, gap: nat, i: nat, j: nat)
    requires i <= j
    ensures 0 <= Part(len, k, gap, i) - Part(len, k, gap, j) <= 1
  {
    hide Whole, Left;
  }

  lemma {:induction false} StartOrder(len: int, k: nat, gap: nat, step: nat, i: nat, j: nat)
    requires k > 0 && Size(len, k, gap) >= 0 && i < j
    ensures Start(len, k, gap, step, i) + Part(len, k, gap, i) + step <= Start(len, k, gap, step, j)
    decreases j
  {
    hide Start, Part, Size;
    StartNext(len, k, gap, step, j - 1);
    if i + 1 < j {
      StartOrder(len, k, gap, step, i, j - 1);
    }
  }

  // ---------------------------------------------------------------------------------------------
  // grid

  function Cols(n: nat, rows: nat): (cols: nat)
    ensures cols > 0 || rows <= 1
  {
    if rows > 0 && (rows - 1) * rows >= n then rows - 1 else rows
  }

  /** The cell of window i in rows rows and cols columns, filled column by column. */
  function GridCell(a: Area, rows: nat, cols: nat, i: nat): Cell
    requires rows > 0 && cols > 0
  {
    var w, h := a.ww - 2 * a.ov, a.wh - 2 * a.oh;
    Cell(a.wx + a.ov + Start(w, cols, a.iv, a.iv, i / rows), a.wy + a.oh + Start(h, rows, a.ih, a.ih, i % rows),
         Part(w, cols, a.iv, i / rows), Part(h, rows, a.ih, i % rows))
  }

  /** The gaps fit into the area. */
  predicate GridRoomy(a: Area, rows: nat, cols: nat) {
    Size(a.ww - 2 * a.ov, cols, a.iv) >= 0 && Size(a.wh - 2 * a.oh, rows, a.ih) >= 0
  }

  /** grid has ceil(sqrt n) rows, its windows are in its columns, and no column is empty. */
  lemma ColumnsUsed(n: nat, rows: nat)
    requires n > 0 && IsRoot(n, rows)
    ensures rows > 0 && Cols(n, rows) > 0
    ensures forall i | 0 <= i < n :: i / rows < Cols(n, rows)
    ensures (Cols(n, rows) - 1) * rows < n
  {
    var cols := Cols(n, rows);
    assert n <= cols * rows;
    forall i | 0 <= i < n ensures i / rows < cols {
      Quotient(i, rows, cols);
    }
  }

  lemma Quotient(i: nat, k: nat, q: nat)
    requires k > 0 && i < q * k
    ensures i / k < q
  {
    var d := i / k;
    if q < d {
      Times(q, d, k);
    }
  }

  /** The columns of grid span the area, the rows of a full column too, and the cells are a gap apart. */
  lemma GridFills(a: Area, rows: nat, cols: nat, i: nat)
    requires rows > 0 && cols > 0 && GridRoomy(a, rows, cols) && i / rows < cols
    ensures var c := GridCell(a, rows, cols, i);
      && (i / rows == 0 ==> c.x == a.wx + a.ov) && (i / rows == cols - 1 ==> c.x + c.w == a.wx + a.ww - a.ov)
      && (i % rows == 0 ==> c.y == a.wy + a.oh) && (i % rows == rows - 1 ==> c.y + c.h == a.wy + a.wh - a.oh)
      && (i % rows < rows - 1 ==>
        var d := GridCell(a, rows, cols, i + 1); d.x == c.x && d.w == c.w && d.y == c.y + c.h + a.ih)
      && (var d := GridCell(a, rows, cols, i + rows); d.y == c.y && d.h == c.h && d.x == c.x + c.w + a.iv)
      && c.w >= 0 && c.h >= 0
    ensures forall j | 0 <= j && j / rows < cols && (j / rows > i / rows || (j / rows == i / rows && j > i)) ::
      Apart(a, GridCell(a, rows, cols, i), GridCell(a, rows, cols, j))
  {
    hide Start, Part, Size;
    var w, h := a.ww - 2 * a.ov, a.wh - 2 * a.oh;
    StartNext(w, cols, a.iv, a.iv, i / rows);
    StartNext(h, rows, a.ih, a.ih, i % rows);
    StartLast(w, cols, a.iv, a.iv);
    StartLast(h, rows, a.ih, a.ih);
    NextPlace(i, rows);
    forall j | 0 <= j && j / rows < cols && (j / rows > i / rows || (j / rows == i / rows && j > i))
      ensures Apart(a, GridCell(a, rows, cols, i), GridCell(a, rows, cols, j))
    {
      if j / rows > i / rows {
        StartOrder(w, cols, a.iv, a.iv, i / rows, j / rows);
      } else {
        SameColumn(i, j, rows);
        StartOrder(h, rows, a.ih, a.ih, i % rows, j % rows);
      }
    }
  }

  /** Columns of grid are equally wide and rows equally high but for a pixel, which the first ones get. */
  lemma GridEven(a: Area, rows: nat, cols: nat, i: nat, j: nat)
    requires rows > 0 && cols > 0
    ensures var c, d := GridCell(a, rows, cols, i), GridCell(a, rows, cols, j);
      && (i / rows <= j / rows ==> 0 <= c.w - d.w <= 1) && (i % rows <= j % rows ==> 0 <= c.h - d.h <= 1)
  {
    hide Part, Start;
    if i / rows <= j / rows {
      PartsEven(a.ww - 2 * a.ov, cols, a.iv, i / rows, j / rows);
    }
    if i % rows <= j % rows {
      PartsEven(a.wh - 2 * a.oh, rows, a.ih, i % rows, j % rows);
    }
  }

  lemma SameColumn(i: nat, j: nat, rows: nat)
    requires rows > 0 && i < j && i / rows == j / rows
    ensures i % rows < j % rows
  {
  }

  lemma NextPlace(i: nat, rows: nat)
    requires rows > 0
    ensures i % rows < rows - 1 ==> (i + 1) / rows == i / rows && (i + 1) % rows == i % rows + 1
    ensures i % rows == rows - 1 ==> (i + 1) / rows == i / rows + 1 && (i + 1) % rows == 0
    ensures (i + rows) / rows == i / rows + 1 && (i + rows) % rows == i % rows
  {
    var q, r := i / rows, i % rows;
    var p := q * rows;
    assert i == p + r && (q + 1) * rows == p + rows;
    if r < rows - 1 {
      DivModOf(i + 1, q, r + 1, rows);
    } else {
      DivModOf(i + 1, q + 1, 0, rows);
    }
    DivModOf(i + rows, q + 1, r, rows);
  }

  lemma DivModOf(i: nat, q: nat, r: nat, k: nat)
    requires r < k && i == q * k + r
    ensures i / k == q && i % k == r
  {
    DivMod(q, r, k);
  }

  lemma DivMod(q: nat, r: nat, k: nat)
    requires r < k
    ensures (q * k + r) / k == q && (q * k + r) % k == r
  {
    var x := q * k + r;
    OneQuotient(x / k, x % k, q, r, k);
  }

  lemma OneQuotient(a: nat, b: nat, c: nat, d: nat, k: nat)
    requires b < k && d < k && a * k + b == c * k + d
    ensures a == c && b == d
  {
    if c < a {
      Times(c, a, k);
    } else if a < c {
      Times(a, c, k);
    }
  }

  lemma Times(a: nat, b: nat, k: nat)
    requires a < b
    ensures a * k + k <= b * k
  {
    assert b * k == (b - a) * k + a * k;
    assert (b - a) * k == (b - a - 1) * k + k;
  }

  /** A part of a cut without leaps lies within the length. */
  lemma {:induction false} StartWithin(len: int, k: nat, gap: nat, i: nat)
    requires k > 0 && Size(len, k, gap) >= 0 && i < k
    ensures 0 <= Start(len, k, gap, gap, i) && Start(len, k, gap, gap, i) + Part(len, k, gap, i) <= len
  {
    hide Start, Part, Size;
    StartNext(len, k, gap, gap, 0);
    StartNext(len, k, gap, gap, i);
    StartNext(len, k, gap, gap, k - 1);
    StartLast(len, k, gap, gap);
    if i > 0 {
      StartOrder(len, k, gap, gap, 0, i);
    }
    if i < k - 1 {
      StartOrder(len, k, gap, gap, i, k - 1);
    }
  }

  /** A cell of grid that is large enough also shows in the area. */
  lemma GridFits(a: Area, rows: nat, cols: nat, i: nat, bw: nat)
    requires rows > 0 && cols > 0 && GridRoomy(a, rows, cols) && i / rows < cols
      && Sized(a, GridCell(a, rows, cols, i), bw)
    ensures Fits(a, GridCell(a, rows, cols, i), bw)
  {
    hide Start, Part, Size;
    StartWithin(a.ww - 2 * a.ov, cols, a.iv, i / rows);
    StartWithin(a.wh - 2 * a.oh, rows, a.ih, i % rows);
  }

  /** The windows with their borders. */
  ghost function Outers(cs: seq<Win>): (g: seq<Cell>)
    reads cs
    ensures |g| == |cs| && forall i | 0 <= i < |cs| :: g[i] == cs[i].Outer()
  {
    if cs == [] then [] else Outers(cs[..|cs| - 1]) + [cs[|cs| - 1].Outer()]
  }

  /** resize of window i, borders taken off. */
  method Put(a: Area, cs: seq<Win>, i: nat, x: int, y: int, w: int, h: int)
    requires Distinct(cs) && i < |cs|
    modifies cs[i]
    ensures forall j | 0 <= j < |cs| && j != i :: Outers(cs)[j] == old(Outers(cs))[j]
    ensures Fits(a, Cell(x, y, w, h), cs[i].bw) ==> Outers(cs)[i] == Cell(x, y, w, h)
  {
    hide Fits, Limited, Max;
    cs[i].Resize(a, x, y, w - 2 * cs[i].bw, h - 2 * cs[i].bw);
  }

  predicate GridSized(a: Area, rows: nat, cols: nat, cs: seq<Win>)
    requires rows > 0 && cols > 0
  {
    forall i | 0 <= i < |cs| :: Sized(a, GridCell(a, rows, cols, i), cs[i].bw)
  }

  /** Every cell is one that resize takes as it is. */
  predicate GridTaken(a: Area, rows: nat, cols: nat, cs: seq<Win>)
    requires rows > 0 && cols > 0
  {
    forall i | 0 <= i < |cs| :: Fits(a, GridCell(a, rows, cols, i), cs[i].bw)
  }

  lemma GridIsTaken(a: Area, rows: nat, cols: nat, cs: seq<Win>)
    requires |cs| > 0 && IsRoot(|cs|, rows) && cols == Cols(|cs|, rows) && rows > 0 && cols > 0
    requires GridRoomy(a, rows, cols) && GridSized(a, rows, cols, cs)
    ensures GridTaken(a, rows, cols, cs)
  {
    hide Fits, Sized, GridCell, IsRoot, Cols, GridRoomy;
    ColumnsUsed(|cs|, rows);
    forall i | 0 <= i < |cs| ensures Fits(a, GridCell(a, rows, cols, i), cs[i].bw) {
      GridFits(a, rows, cols, i, cs[i].bw);
    }
  }

  /** The first i windows are in their cells. */
  ghost predicate GridPlaced(a: Area, rows: nat, cols: nat, g: seq<Cell>, i: nat)
    requires rows > 0 && cols > 0 && i <= |g|
  {
    forall j | 0 <= j < i :: g[j] == GridCell(a, rows, cols, j)
  }

  lemma GridPlacedNext(a: Area, rows: nat, cols: nat, cs: seq<Win>, g: seq<Cell>, g': seq<Cell>, i: nat)
    requires rows > 0 && cols > 0 && i < |g| == |g'| == |cs| && GridTaken(a, rows, cols, cs)
      && GridPlaced(a, rows, cols, g, i)
    requires Fits(a, GridCell(a, rows, cols, i), cs[i].bw) ==> g'[i] == GridCell(a, rows, cols, i)
    requires forall j | 0 <= j < |g| && j != i :: g'[j] == g[j]
    ensures GridPlaced(a, rows, cols, g', i + 1)
  {
    hide Fits, GridCell;
  }

  function Quot(i: nat, k: nat): nat
    requires k > 0
  {
    i / k
  }

  function Rem(i: nat, k: nat): nat
    requires k > 0
  {
    i % k
  }

  /** The cell in the terms of the loop. */
  lemma GridIs(a: Area, rows: nat, cols: nat, i: nat)
    requires rows > 0 && cols > 0
    ensures var w, h := a.ww - 2 * a.ov, a.wh - 2 * a.oh;
      var cw, crest, ch, rrest := Whole(w, cols, a.iv), Left(w, cols, a.iv), Whole(h, rows, a.ih), Left(h, rows, a.ih);
      var cn, rn := Quot(i, rows), Rem(i, rows);
      GridCell(a, rows, cols, i) == Cell(a.wx + a.ov + Skip(cn, cw + a.iv, crest),
        a.wy + a.oh + Skip(rn, ch + a.ih, rrest),
        cw + if cn < crest then 1 else 0, ch + if rn < rrest then 1 else 0)
  {
  }

  /** The number of rows and columns. */
  method GridSize(n: nat) returns (rows: nat, cols: nat)
    ensures IsRoot(n, rows) && cols == Cols(n, rows)
    ensures n > 0 ==> rows > 0 && cols > 0
  {
    rows := Root(n);
    cols := if rows > 0 && (rows - 1) * rows >= n then rows - 1 else rows;
    if n > 0 {
      ColumnsUsed(n, rows);
    }
  }

  /** Window i is put into its cell. */
  method PutInGrid(a: Area, cs: seq<Win>, i: nat, x: int, y: int, w: int, h: int, ghost rows: nat, ghost cols: nat,
        ghost good: bool)
    requires Distinct(cs) && i < |cs| && rows > 0 && cols > 0 && GridCell(a, rows, cols, i) == Cell(x, y, w, h)
    requires good ==> GridTaken(a, rows, cols, cs) && GridPlaced(a, rows, cols, Outers(cs), i)
    modifies cs[i]
    ensures good ==> GridPlaced(a, rows, cols, Outers(cs), i + 1)
  {
    hide Distinct, Limited, Fits, Max, GridCell, GridTaken, GridPlaced, Outers;
    ghost var g := Outers(cs);
    Put(a, cs, i, x, y, w, h);
    if good {
      GridPlacedNext(a, rows, cols, cs, g, Outers(cs), i);
    }
  }

  /** grid */
  method Grid(a: Area, cs: seq<Win>) returns (ghost rows: nat, ghost cols: nat)
    requires Distinct(cs)
    modifies cs
    ensures IsRoot(|cs|, rows) && cols == Cols(|cs|, rows)
    ensures cs != [] ==> rows > 0 && cols > 0
    ensures cs != [] && GridRoomy(a, rows, cols) && GridSized(a, rows, cols, cs) ==>
      forall i | 0 <= i < |cs| :: cs[i].Outer() == GridCell(a, rows, cols, i)
  {
    var r, k := GridSize(|cs|);
    rows, cols := r, k;
    if cs == [] {
      return;
    }
    hide Quot, Rem, Whole, Left, Skip, Limited, Fits, IsRoot, GridCell, GridSized, GridTaken, GridRoomy, Cols, Outers,
      GridPlaced;
    var ch := Whole(a.wh - 2 * a.oh, r, a.ih);
    var cw := Whole(a.ww - 2 * a.ov, k, a.iv);
    var chrest := Left(a.wh - 2 * a.oh, r, a.ih);
    var cwrest := Left(a.ww - 2 * a.ov, k, a.iv);
    ghost var good := GridRoomy(a, rows, cols) && GridSized(a, rows, cols, cs);
    if good {
      GridIsTaken(a, r, k, cs);
    }
    NoneInGrid(a, rows, cols, Outers(cs));
    for i := 0 to |cs|
      invariant good ==> GridPlaced(a, rows, cols, Outers(cs), i)
    {
      var cc, cr := Quot(i, r), Rem(i, r);
      var cx := a.wx + a.ov + Skip(cc, cw + a.iv, cwrest);
      var cy := a.wy + a.oh + Skip(cr, ch + a.ih, chrest);
      var w, h := cw + if cc < cwrest then 1 else 0, ch + if cr < chrest then 1 else 0;
      GridIs(a, r, k, i);
      PutInGrid(a, cs, i, cx, cy, w, h, r, k, good);
    }
    if good {
      AllInGrid(a, rows, cols, Outers(cs));
    }
  }

  lemma NoneInGrid(a: Area, rows: nat, cols: nat, g: seq<Cell>)
    requires rows > 0 && cols > 0
    ensures GridPlaced(a, rows, cols, g, 0)
  {
  }

  lemma AllInGrid(a: Area, rows: nat, cols: nat, g: seq<Cell>)
    requires rows > 0 && cols > 0 && GridPlaced(a, rows, cols, g, |g|)
    ensures forall i | 0 <= i < |g| :: g[i] == GridCell(a, rows, cols, i)
  {
  }

  // ---------------------------------------------------------------------------------------------
  // gaplessgrid

  function GaplessCols(n: nat, root: nat): nat {
    if n == 5 then 2 else root
  }

  /** The windows in the columns of n / cols rows, which come before those of one row more. */
  function Short(n: nat, cols: nat): nat
    requires cols > 0
  {
    (n / cols) * (cols - n % cols)
  }

  function RowsOf(n: nat, cols: nat, i: nat): nat
    requires cols > 0
  {
    if i < Short(n, cols) then n / cols else n / cols + 1
  }

  function ColOf(n: nat, cols: nat, i: nat): nat
    requires 0 < cols <= n
  {
    var q := n / cols;
    if i < Short(n, cols) then i / One(q) else cols - n % cols + (i - Short(n, cols)) / (q + 1)
  }

  function RowOf(n: nat, cols: nat, i: nat): nat
    requires 0 < cols <= n
  {
    var q := n / cols;
    if i < Short(n, cols) then i % One(q) else (i - Short(n, cols)) % (q + 1)
  }

  lemma ColsFit(n: nat, root: nat)
    requires n > 0 && IsRoot(n, root)
    ensures 0 < GaplessCols(n, root) <= n && n / GaplessCols(n, root) > 0
  {
    if root > 1 {
      assert (root - 1) * (root - 1) >= root - 1;
    }
    var cols := GaplessCols(n, root);
    assert n == (n / cols) * cols + n % cols;
  }

  /** Window i is followed by the one below it, or by the first of the next column. */
  predicate Follows(n: nat, cols: nat, i: nat)
    requires 0 < cols <= n
  {
    && RowOf(n, cols, i) < RowsOf(n, cols, i) && ColOf(n, cols, i) < cols
    && (i + 1 < n && RowOf(n, cols, i) + 1 < RowsOf(n, cols, i) ==>
      && RowOf(n, cols, i + 1) == RowOf(n, cols, i) + 1 && ColOf(n, cols, i + 1) == ColOf(n, cols, i)
      && RowsOf(n, cols, i + 1) == RowsOf(n, cols, i))
    && (i + 1 < n && RowOf(n, cols, i) + 1 == RowsOf(n, cols, i) ==>
      RowOf(n, cols, i + 1) == 0 && ColOf(n, cols, i + 1) == ColOf(n, cols, i) + 1)
    && (i == n - 1 ==> ColOf(n, cols, i) == cols - 1 && RowOf(n, cols, i) + 1 == RowsOf(n, cols, i))
  }

  /** The windows run through the columns from top to bottom, n / cols or one more in each. */
  lemma GaplessWalk(n: nat, cols: nat, i: nat)
    requires 0 < cols <= n && i < n
    ensures n / cols > 0 && Follows(n, cols, i)
    ensures ColOf(n, cols, 0) == 0 && RowOf(n, cols, 0) == 0
  {
    GaplessCount(n, cols);
    WalkStart(n, cols);
    if i < Short(n, cols) {
      WalkShort(n, cols, i);
    } else {
      WalkLong(n, cols, i);
    }
  }

  lemma WalkStart(n: nat, cols: nat)
    requires 0 < cols <= n && n / cols > 0
    ensures ColOf(n, cols, 0) == 0 && RowOf(n, cols, 0) == 0
  {
    hide Short;
    ShortIs(n, cols);
    ShortPlace(n / cols, 0, 0);
    ShortPlace(n / cols + 1, 0, 0);
  }

  lemma WalkShort(n: nat, cols: nat, i: nat)
    requires 0 < cols <= n && i < Short(n, cols) && n / cols > 0 && i < n
    ensures Follows(n, cols, i)
  {
    hide Short;
    var q, k, m := n / cols, cols - n % cols, Short(n, cols);
    ShortIs(n, cols);
    GaplessCount(n, cols);
    ShortPlace(q, k, i);
    ShortPlace(q + 1, 0, 0);
  }

  lemma WalkLong(n: nat, cols: nat, i: nat)
    requires 0 < cols <= n && Short(n, cols) <= i < n && n / cols > 0
    ensures Follows(n, cols, i)
  {
    hide Short;
    var q, r, m := n / cols, n % cols, Short(n, cols);
    GaplessCount(n, cols);
    ShortPlace(q + 1, r, i - m);
  }

  lemma ShortIs(n: nat, cols: nat)
    requires 0 < cols <= n
    ensures Short(n, cols) == (n / cols) * (cols - n % cols)
    ensures n / cols > 0 ==> Short(n, cols) > 0
  {
    if n / cols > 0 {
      Times(0, cols - n % cols, n / cols);
    }
  }

  /** Places in k columns of q rows. */
  lemma ShortPlace(q: nat, k: nat, i: nat)
    requires q > 0
    ensures i < q * k ==> i / q < k
    ensures 0 / q == 0 && 0 % q == 0
    ensures i % q + 1 < q ==> (i + 1) / q == i / q && (i + 1) % q == i % q + 1
    ensures i % q + 1 == q ==> (i + 1) / q == i / q + 1 && (i + 1) % q == 0
    ensures i + 1 == q * k ==> i / q == k - 1 && i % q == q - 1
  {
    DivMod(0, 0, q);
    NextPlace(i, q);
    if i < q * k {
      Quotient(i, q, k);
    }
    if i + 1 == q * k {
      DivMod(k, 0, q);
    }
  }

  lemma GaplessCount(n: nat, cols: nat)
    requires 0 < cols <= n
    ensures n / cols > 0 && n == Short(n, cols) + (n % cols) * (n / cols + 1)
  {
    var q, r := n / cols, n % cols;
    assert n == q * cols + r;
    assert q * cols == q * (cols - r) + q * r;
  }

  /** The cell of window i; columns are put the horizontal gap apart, as the source steps. */
  function GaplessCell(a: Area, n: nat, cols: nat, i: nat): Cell
    requires 0 < cols <= n && RowsOf(n, cols, i) > 0
  {
    var w, h, k := a.ww - 2 * a.ov, a.wh - 2 * a.oh, RowsOf(n, cols, i);
    Cell(a.wx + a.ov + Start(w, cols, a.iv, a.ih, ColOf(n, cols, i)),
         a.wy + a.oh + Start(h, k, a.ih, a.ih, RowOf(n, cols, i)),
         Part(w, cols, a.iv, ColOf(n, cols, i)), Part(h, k, a.ih, RowOf(n, cols, i)))
  }

  /**
    * gaplessgrid fills every column from the top gap to the bottom gap; the last column ends at the outer gap
    * exactly when there is one column or the two inner gaps are equal.
    */
  lemma GaplessFills(a: Area, n: nat, cols: nat, i: nat)
    requires 0 < cols <= n && i < n && GridRoomy(a, RowsOf(n, cols, n - 1), cols)
    ensures RowsOf(n, cols, i) > 0
    ensures var c := GaplessCell(a, n, cols, i);
      && (RowOf(n, cols, i) == 0 ==> c.y == a.wy + a.oh)
      && (RowOf(n, cols, i) + 1 == RowsOf(n, cols, i) ==> c.y + c.h == a.wy + a.wh - a.oh)
      && (i + 1 < n && RowOf(n, cols, i) + 1 < RowsOf(n, cols, i) ==>
        RowsOf(n, cols, i + 1) > 0 && var d := GaplessCell(a, n, cols, i + 1);
          d.x == c.x && d.w == c.w && d.y == c.y + c.h + a.ih)
      && (i + 1 < n && RowOf(n, cols, i) + 1 == RowsOf(n, cols, i) ==>
        RowsOf(n, cols, i + 1) > 0 && var d := GaplessCell(a, n, cols, i + 1);
          d.x == c.x + c.w + a.ih && d.y == a.wy + a.oh)
      && (ColOf(n, cols, i) == 0 ==> c.x == a.wx + a.ov)
      && (ColOf(n, cols, i) == cols - 1 ==> (c.x + c.w == a.wx + a.ww - a.ov <==> cols == 1 || a.ih == a.iv))
      && c.w >= 0 && c.h >= 0
  {
    hide Start, Part, RowsOf, ColOf, RowOf, Size;
    GaplessWalk(n, cols, i);
    var w, h, k := a.ww - 2 * a.ov, a.wh - 2 * a.oh, RowsOf(n, cols, i);
    RowsAre(a, n, cols, i);
    StartNext(w, cols, a.iv, a.ih, ColOf(n, cols, i));
    StartNext(h, k, a.ih, a.ih, RowOf(n, cols, i));
    LastEnds(w, cols, a.iv, a.ih);
    LastEnds(h, k, a.ih, a.ih);
    if i + 1 < n {
      RowsAre(a, n, cols, i + 1);
      StartNext(h, RowsOf(n, cols, i + 1), a.ih, a.ih, 0);
    }
  }

  lemma Miss(d: int, k: nat)
    ensures d * k == 0 <==> d == 0 || k == 0
  {
  }

  /** The last part ends where the length does exactly when the steps are the gaps or there is no step. */
  lemma LastEnds(len: int, k: nat, gap: nat, step: nat)
    requires k > 0 && Size(len, k, gap) >= 0
    ensures Start(len, k, gap, step, k - 1) + Part(len, k, gap, k - 1) == len <==> k == 1 || step == gap
  {
    StartLast(len, k, gap, step);
    Miss(step - gap, k - 1);
    hide Start, Part, Size;
  }

  lemma RowsAre(a: Area, n: nat, cols: nat, i: nat)
    requires 0 < cols <= n && i < n && GridRoomy(a, RowsOf(n, cols, n - 1), cols)
    ensures RowsOf(n, cols, i) > 0 && Size(a.wh - 2 * a.oh, RowsOf(n, cols, i), a.ih) >= 0
  {
    GaplessCount(n, cols);
    var q := n / cols;
    assert a.ih * q == a.ih * (q - 1) + a.ih;
  }

  predicate GaplessSized(a: Area, cols: nat, cs: seq<Win>)
    requires 0 < cols <= |cs|
  {
    forall i | 0 <= i < |cs| :: RowsOf(|cs|, cols, i) > 0 && Sized(a, GaplessCell(a, |cs|, cols, i), cs[i].bw)
  }

  /** The gaps fit, and the last column, which the horizontal gaps push to the right, still begins in the area. */
  predicate GaplessRoomy(a: Area, n: nat, cols: nat)
    requires 0 < cols <= n
  {
    GridRoomy(a, RowsOf(n, cols, n - 1), cols)
      && (a.ih - a.iv) * (cols - 1) < Part(a.ww - 2 * a.ov, cols, a.iv, cols - 1) + a.ov
  }

  /** A cell of gaplessgrid that is large enough also shows in the area. */
  lemma GaplessFits(a: Area, n: nat, cols: nat, i: nat, bw: nat)
    requires 0 < cols <= n && i < n && GaplessRoomy(a, n, cols)
    requires RowsOf(n, cols, i) > 0 && Sized(a, GaplessCell(a, n, cols, i), bw)
    ensures Fits(a, GaplessCell(a, n, cols, i), bw)
  {
    hide Start, Part, Size, RowsOf, ColOf, RowOf;
    GaplessWalk(n, cols, i);
    RowsAre(a, n, cols, i);
    var w, k := a.ww - 2 * a.ov, ColOf(n, cols, i);
    StartWithin(a.wh - 2 * a.oh, RowsOf(n, cols, i), a.ih, RowOf(n, cols, i));
    StartNonneg(w, cols, a.iv, a.ih, k);
    StartLast(w, cols, a.iv, a.ih);
    StartNext(w, cols, a.iv, a.ih, k);
    if k < cols - 1 {
      StartOrder(w, cols, a.iv, a.ih, k, cols - 1);
    }
  }

  lemma {:induction false} StartNonneg(len: int, k: nat, gap: nat, step: nat, i: nat)
    requires k > 0 && Size(len, k, gap) >= 0
    ensures Start(len, k, gap, step, i) >= 0
  {
    hide Start, Part, Size;
    StartNext(len, k, gap, step, if i > 0 then i - 1 else 0);
    if i > 0 {
      StartNonneg(len, k, gap, step, i - 1);
    }
  }

  /** Every cell is one that resize takes as it is. */
  predicate GaplessTaken(a: Area, cols: nat, cs: seq<Win>)
    requires 0 < cols <= |cs|
  {
    forall i | 0 <= i < |cs| :: RowsOf(|cs|, cols, i) > 0 && Fits(a, GaplessCell(a, |cs|, cols, i), cs[i].bw)
  }

  lemma GaplessIsTaken(a: Area, cols: nat, cs: seq<Win>)
    requires 0 < cols <= |cs| && GaplessRoomy(a, |cs|, cols) && GaplessSized(a, cols, cs)
    ensures GaplessTaken(a, cols, cs) && Size(a.ww - 2 * a.ov, cols, a.iv) >= 0
  {
    hide Fits, Sized, GaplessCell, RowsOf;
    forall i | 0 <= i < |cs| ensures RowsOf(|cs|, cols, i) > 0 && Fits(a, GaplessCell(a, |cs|, cols, i), cs[i].bw) {
      GaplessFits(a, |cs|, cols, i, cs[i].bw);
    }
  }

  /** The first i windows are in their cells. */
  ghost predicate GaplessPlaced(a: Area, cols: nat, g: seq<Cell>, i: nat)
    requires 0 < cols <= |g| && i <= |g|
  {
    forall j | 0 <= j < i :: RowsOf(|g|, cols, j) > 0 && g[j] == GaplessCell(a, |g|, cols, j)
  }

  lemma GaplessPlacedNext(a: Area, cols: nat, cs: seq<Win>, g: seq<Cell>, g': seq<Cell>, i: nat)
    requires 0 < cols <= |g| && i < |g| == |g'| == |cs| && GaplessTaken(a, cols, cs) && GaplessPlaced(a, cols, g, i)
    requires RowsOf(|g|, cols, i) > 0
    requires Fits(a, GaplessCell(a, |g|, cols, i), cs[i].bw) ==> g'[i] == GaplessCell(a, |g|, cols, i)
    requires forall j | 0 <= j < |g| && j != i :: g'[j] == g[j]
    ensures GaplessPlaced(a, cols, g', i + 1)
  {
    hide Fits, GaplessCell, RowsOf;
  }

  lemma NoneGapless(a: Area, cols: nat, g: seq<Cell>)
    requires 0 < cols <= |g|
    ensures GaplessPlaced(a, cols, g, 0)
  {
  }

  lemma AllGapless(a: Area, cols: nat, g: seq<Cell>)
    requires 0 < cols <= |g| && GaplessPlaced(a, cols, g, |g|)
    ensures forall i | 0 <= i < |g| :: RowsOf(|g|, cols, i) > 0 && g[i] == GaplessCell(a, |g|, cols, i)
  {
  }

  /** Window i is put into its cell. */
  method PutGapless(a: Area, cs: seq<Win>, i: nat, x: int, y: int, w: int, h: int, ghost cols: nat, ghost good: bool)
    requires Distinct(cs) && i < |cs| && 0 < cols <= |cs| && RowsOf(|cs|, cols, i) > 0
    requires good ==> GaplessTaken(a, cols, cs) && GaplessPlaced(a, cols, Outers(cs), i)
    requires good ==> GaplessCell(a, |cs|, cols, i) == Cell(x, y, w, h)
    modifies cs[i]
    ensures good ==> GaplessPlaced(a, cols, Outers(cs), i + 1)
  {
    hide Distinct, Limited, Fits, Max, RowsOf, GaplessCell, GaplessTaken, GaplessPlaced, Outers;
    ghost var g := Outers(cs);
    Put(a, cs, i, x, y, w, h);
    if good {
      GaplessPlacedNext(a, cols, cs, g, Outers(cs), i);
    }
  }

  /** gaplessgrid */
  method Gapless(a: Area, cs: seq<Win>) returns (ghost cols: nat)
    requires Distinct(cs)
    modifies cs
    ensures cs != [] ==> 0 < cols <= |cs| && if |cs| == 5 then cols == 2 else IsRoot(|cs|, cols)
    ensures cs != [] && 0 < cols <= |cs| && GaplessRoomy(a, |cs|, cols) && GaplessSized(a, cols, cs) ==>
      forall i | 0 <= i < |cs| :: cs[i].Outer() == GaplessCell(a, |cs|, cols, i)
  {
    hide Whole, Left, Skip, Limited, Fits, IsRoot, ColOf, RowOf, Short, Size, GaplessCell, Start, Part, Switches,
      GaplessSized, GaplessTaken, GaplessPlaced, Max, Outers, RowsOf, Follows;
    var n := |cs|;
    cols := 0;
    if n == 0 {
      return;
    }
    var root := Root(n);
    var k := if n == 5 then 2 else root;
    cols := k;
    ColsFit(n, root);
    var rows, cn, rn := n / k, 0, 0;
    var ch, cw := Whole(a.wh - 2 * a.oh, rows, a.ih), Whole(a.ww - 2 * a.ov, k, a.iv);
    var rrest, crest := Left(a.wh - 2 * a.oh, rows, a.ih), Left(a.ww - 2 * a.ov, k, a.iv);
    var x, y := a.wx + a.ov, a.wy + a.oh;
    GaplessWalk(n, k, 0);
    ghost var good := GaplessRoomy(a, n, k) && GaplessSized(a, k, cs);
    if good {
      GaplessIsTaken(a, k, cs);
      LeftRange(a.ww - 2 * a.ov, k, a.iv);
    }
    SkipNext(0, cw + a.ih, crest);
    NoneGapless(a, k, Outers(cs));
    for i := 0 to n
      invariant rows > 0 && ch == Whole(a.wh - 2 * a.oh, rows, a.ih) && rrest == Left(a.wh - 2 * a.oh, rows, a.ih)
      invariant rows == if i <= Short(n, k) then n / k else n / k + 1
      invariant i < n ==> cn == ColOf(n, k, i) && rn == RowOf(n, k, i)
      invariant good && i < n ==> x == a.wx + a.ov + Skip(cn, cw + a.ih, crest)
      invariant good ==> GaplessPlaced(a, k, Outers(cs), i)
    {
      Switch(n, k, i, rows);
      if Switches(n, k, i, rows) {
        rows := n / k + 1;
        ch := Whole(a.wh - 2 * a.oh, rows, a.ih);
        rrest := Left(a.wh - 2 * a.oh, rows, a.ih);
      }
      Onward(n, k, i, rows, cn, rn);
      SkipNext(cn, cw + a.ih, crest);
      var cy := y + Skip(rn, ch + a.ih, rrest);
      GaplessIs(a, n, k, i);
      var w, h := cw + if cn < crest then 1 else 0, ch + if rn < rrest then 1 else 0;
      PutGapless(a, cs, i, x, cy, w, h, k, good);
      rn := rn + 1;
      if rn >= rows {
        rn := 0;
        x := x + cw + a.ih + if cn < crest then 1 else 0;
        cn := cn + 1;
      }
    }
    if good {
      AllGapless(a, k, Outers(cs));
    }
  }

  /** The cell in the terms of the loop. */
  lemma GaplessIs(a: Area, n: nat, cols: nat, i: nat)
    requires 0 < cols <= n && RowsOf(n, cols, i) > 0
    ensures var w, h, rows := a.ww - 2 * a.ov, a.wh - 2 * a.oh, RowsOf(n, cols, i);
      var cw, crest, ch, rrest := Whole(w, cols, a.iv), Left(w, cols, a.iv), Whole(h, rows, a.ih), Left(h, rows, a.ih);
      var cn, rn := ColOf(n, cols, i), RowOf(n, cols, i);
      GaplessCell(a, n, cols, i) == Cell(a.wx + a.ov + Skip(cn, cw + a.ih, crest),
        a.wy + a.oh + Skip(rn, ch + a.ih, rrest),
        cw + if cn < crest then 1 else 0, ch + if rn < rrest then 1 else 0)
  {
  }

  predicate Switches(n: nat, cols: nat, i: nat, rows: nat)
    requires cols > 0 && rows > 0
  {
    i / rows + 1 > cols - n % cols
  }

  /** The test in the loop of gaplessgrid finds the columns with one row more. */
  lemma Switch(n: nat, cols: nat, i: nat, rows: nat)
    requires 0 < cols <= n && i < n && rows > 0 && rows == if i <= Short(n, cols) then n / cols else n / cols + 1
    ensures (if Switches(n, cols, i, rows) then n / cols + 1 else rows) == RowsOf(n, cols, i)
  {
    ColumnAt(n, cols, i);
    hide Short;
  }

  lemma ColumnAt(n: nat, cols: nat, i: nat)
    requires 0 < cols <= n
    ensures n / cols > 0
    ensures i < Short(n, cols) ==> i / (n / cols) < cols - n % cols
    ensures i == Short(n, cols) ==> i / (n / cols) == cols - n % cols
  {
    var q, k := n / cols, cols - n % cols;
    GaplessCount(n, cols);
    assert Short(n, cols) == k * q + 0;
    hide Short;
    if i < Short(n, cols) {
      Quotient(i, q, k);
    } else if i == Short(n, cols) {
      DivMod(k, 0, q);
    }
  }

  /** Where the loop goes from window i. */
  lemma Onward(n: nat, cols: nat, i: nat, rows: nat, cn: nat, rn: nat)
    requires 0 < cols <= n && i < n && rows == RowsOf(n, cols, i) && cn == ColOf(n, cols, i) && rn == RowOf(n, cols, i)
    ensures rows == if i + 1 <= Short(n, cols) then n / cols else n / cols + 1
    ensures i + 1 < n && rn + 1 >= rows ==> ColOf(n, cols, i + 1) == cn + 1 && RowOf(n, cols, i + 1) == 0
    ensures i + 1 < n && rn + 1 < rows ==> ColOf(n, cols, i + 1) == cn && RowOf(n, cols, i + 1) == rn + 1
  {
    GaplessWalk(n, cols, i);
    hide Short, ColOf, RowOf;
  }

  lemma {:induction false} WalkOrder(n: nat, cols: nat, i: nat, j: nat)
    requires 0 < cols <= n && i < j < n
    ensures ColOf(n, cols, i) <= ColOf(n, cols, j)
    ensures ColOf(n, cols, i) == ColOf(n, cols, j) ==>
      RowOf(n, cols, i) < RowOf(n, cols, j) && RowsOf(n, cols, i) == RowsOf(n, cols, j)
    decreases j
  {
    hide ColOf, RowOf, RowsOf;
    GaplessWalk(n, cols, j - 1);
    if i < j - 1 {
      WalkOrder(n, cols, i, j - 1);
    }
  }

  /** No two windows of gaplessgrid overlap: the horizontal gap is between them. */
  lemma GaplessApart(a: Area, n: nat, cols: nat, i: nat, j: nat)
    requires 0 < cols <= n && i < j < n && GridRoomy(a, RowsOf(n, cols, n - 1), cols)
    ensures RowsOf(n, cols, i) > 0 && RowsOf(n, cols, j) > 0
    ensures var c, d := GaplessCell(a, n, cols, i), GaplessCell(a, n, cols, j);
      c.y + c.h + a.ih <= d.y || c.x + c.w + a.ih <= d.x
  {
    hide Start, Part, Size, ColOf, RowOf, RowsOf;
    RowsAre(a, n, cols, i);
    RowsAre(a, n, cols, j);
    WalkOrder(n, cols, i, j);
    if ColOf(n, cols, i) == ColOf(n, cols, j) {
      StartOrder(a.wh - 2 * a.oh, RowsOf(n, cols, i), a.ih, a.ih, RowOf(n, cols, i), RowOf(n, cols, j));
    } else {
      StartOrder(a.ww - 2 * a.ov, cols, a.iv, a.ih, ColOf(n, cols, i), ColOf(n, cols, j));
    }
  }

  /**
    * Columns of gaplessgrid are equally wide and the windows of a column equally high but for a pixel, which the
    * first ones get; every column has n / cols windows or one more, and those with one more come last.
    */
  lemma GaplessEven(a: Area, n: nat, cols: nat, i: nat, j: nat)
    requires 0 < cols <= n && i <= j < n
    ensures n / cols <= RowsOf(n, cols, i) <= RowsOf(n, cols, j) <= n / cols + 1
    ensures RowsOf(n, cols, i) > 0 && RowsOf(n, cols, j) > 0
    ensures var c, d := GaplessCell(a, n, cols, i), GaplessCell(a, n, cols, j);
      && 0 <= c.w - d.w <= 1 && (ColOf(n, cols, i) == ColOf(n, cols, j) ==> 0 <= c.h - d.h <= 1)
  {
    GaplessCount(n, cols);
    hide Part, Start, Short, ColOf, RowOf;
    if i < j {
      WalkOrder(n, cols, i, j);
    }
    PartsEven(a.ww - 2 * a.ov, cols, a.iv, ColOf(n, cols, i), ColOf(n, cols, j));
    if ColOf(n, cols, i) == ColOf(n, cols, j) {
      PartsEven(a.wh - 2 * a.oh, RowsOf(n, cols, i), a.ih, RowOf(n, cols, i), RowOf(n, cols, j));
    }
  }

  // ---------------------------------------------------------------------------------------------
  // nrowgrid

  /** C's conversion of an int to unsigned. */
  function Unsigned(x: int): nat {
    x % 0x1_0000_0000
  }

  lemma UnsignedIs(x: int)
    requires 0 <= x < 0x1_0000_0000
    ensures Unsigned(x) == x
  {
  }

  /** The windows in the first k of rows rows. */
  function Filled(n: nat, rows: nat, k: nat): (u: nat)
    requires k <= rows <= n
    ensures u <= n && n - u >= rows - k && (k == rows > 0 ==> u == n)
  {
    if k == 0 then 0
    else
      var u := Filled(n, rows, k - 1);
      RowShare(n - u, rows - (k - 1));
      u + (n - u) / (rows - (k - 1))
  }

  lemma RowShare(n: nat, k: nat)
    requires 0 < k <= n
    ensures 1 <= n / k && n - n / k >= k - 1
    ensures k == 1 ==> n / k == n
    ensures n / k * k <= n < (n / k + 1) * k
  {
    ShareBounds(n, k, n / k, n % k);
  }

  lemma ShareBounds(n: nat, k: nat, q: nat, r: nat)
    requires 0 < k <= n && n == q * k + r && r < k
    ensures 1 <= q && n - q >= k - 1 && q * k <= n < (q + 1) * k
    ensures k == 1 ==> q == n
  {
    AtLeastOne(q, k, r);
    Product(q - 1, k - 1);
    assert (q + 1) * k == q * k + k;
  }

  lemma AtLeastOne(q: nat, k: nat, r: nat)
    requires r < k <= q * k + r
    ensures q >= 1
  {
  }

  lemma Product(a: nat, b: nat)
    ensures (a + 1) * (b + 1) == a * b + a + b + 1 && a * b >= 0
    ensures b == 0 ==> a * b == 0
  {
  }

  /** The windows in row k. */
  function InRow(n: nat, rows: nat, k: nat): nat
    requires k < rows <= n
  {
    Filled(n, rows, k + 1) - Filled(n, rows, k)
  }

  /** m windows for k rows of q or q + 1. */
  predicate Even(m: nat, k: nat, q: nat) {
    q * k <= m <= (q + 1) * k
  }

  lemma EvenShare(m: nat, k: nat, q: nat)
    requires k > 0 && Even(m, k, q)
    ensures q <= Quot(m, k) <= q + 1
  {
    if m == (q + 1) * k {
      DivMod(q + 1, 0, k);
    } else {
      Quotient(m, k, q + 1);
    }
    if m / k < q {
      Times(m / k, q, k);
    }
  }

  lemma EvenParts(k: nat, q: nat)
    requires k > 0
    ensures var p := q * (k - 1);
      && 0 <= p && q * k == p + q && (q + 1) * (k - 1) == p + (k - 1) && (q + 1) * k == p + (k - 1) + q + 1
  {
  }

  lemma EvenStep(m: nat, k: nat, q: nat)
    requires k > 0 && Even(m, k, q)
    ensures Quot(m, k) <= m && Even(m - Quot(m, k), k - 1, q)
  {
    EvenShare(m, k, q);
    EvenBounds(m, k, q);
    hide Quot;
    EvenParts(k, q);
    EvenLess(m, k, q, Quot(m, k), q * (k - 1), (q + 1) * k);
  }

  lemma EvenLess(m: nat, k: nat, q: nat, d: nat, p: int, r: int)
    requires k > 0 && 0 <= p && r == p + (k - 1) + q + 1 && p + q <= m <= r && q <= d <= q + 1
    requires (d == q ==> m < r) && (d == q + 1 ==> m == r)
    ensures p <= m - d <= p + (k - 1)
  {
  }

  lemma EvenBounds(m: nat, k: nat, q: nat)
    requires k > 0 && Even(m, k, q)
    ensures Quot(m, k) == q ==> m < (q + 1) * k
    ensures Quot(m, k) == q + 1 ==> m == (q + 1) * k
  {
    ShareOf(m, k);
  }

  lemma FilledNext(n: nat, rows: nat, k: nat)
    requires k < rows <= n
    ensures Filled(n, rows, k + 1) == Filled(n, rows, k) + Quot(n - Filled(n, rows, k), rows - k)
    ensures Filled(n, rows, 0) == 0 && InRow(n, rows, k) == Quot(n - Filled(n, rows, k), rows - k)
  {
  }

  lemma {:induction false} RestEven(n: nat, rows: nat, k: nat, q: nat)
    requires k < rows <= n && Even(n, rows, q)
    ensures Even(n - Filled(n, rows, k), rows - k, q)
  {
    hide Filled, Even, Quot, InRow;
    if k == 0 {
      FilledNext(n, rows, 0);
    } else {
      RestEven(n, rows, k - 1, q);
      FilledNext(n, rows, k - 1);
      EvenStep(n - Filled(n, rows, k - 1), rows - (k - 1), q);
    }
  }

  /** Every row has n / rows windows or one more, so no row is empty. */
  lemma RowsEven(n: nat, rows: nat, k: nat)
    requires k < rows <= n
    ensures n / rows > 0 && n / rows <= InRow(n, rows, k) <= n / rows + 1
  {
    RowShare(n, rows);
    hide Filled, Quot, InRow;
    RestEven(n, rows, k, n / rows);
    FilledNext(n, rows, k);
    hide Even;
    EvenShare(n - Filled(n, rows, k), rows - k, n / rows);
  }

  /** Later rows have no fewer windows. */
  lemma RowsGrow(n: nat, rows: nat, k: nat)
    requires k + 1 < rows <= n
    ensures InRow(n, rows, k) <= InRow(n, rows, k + 1)
  {
    FilledNext(n, rows, k);
    FilledNext(n, rows, k + 1);
    var m, d := n - Filled(n, rows, k), rows - k;
    hide Filled, InRow;
    RowShare(m, d);
    assert m / d * d == m / d * (d - 1) + m / d;
    AtLeast(m - m / d, d - 1, m / d);
  }

  lemma AtLeast(m: nat, k: nat, q: nat)
    requires k > 0 && q * k <= m
    ensures q <= Quot(m, k)
  {
    if m / k < q {
      Times(m / k, q, k);
    }
  }

  /** The width of window c in a row of cols windows, when used is taken up by those before it. */
  function RowWidth(w: int, cols: nat, c: nat, used: int): nat
    requires c < cols
  {
    Unsigned(w - used) / (cols - c)
  }

  /** The width taken up, gaps included, by the first c windows of a row of cols. */
  function Used(w: int, cols: nat, gap: nat, c: nat): int
    requires c <= cols
  {
    if c == 0 then 0
    else var u := Used(w, cols, gap, c - 1); u + RowWidth(w, cols, c - 1, u) + gap
  }

  function RowHeight(a: Area, rows: nat): nat
    requires rows > 0
  {
    Unsigned(Size(a.wh - 2 * a.oh, rows, a.ih)) / rows
  }

  /** The cell of window c of row k. */
  function NrowCell(a: Area, n: nat, rows: nat, k: nat, c: nat): Cell
    requires k < rows <= n && c < InRow(n, rows, k)
  {
    var w, cols, h := a.ww - 2 * a.ov, InRow(n, rows, k), RowHeight(a, rows);
    var u := Used(w, cols, a.iv, c);
    Cell(a.wx + a.ov + u, a.wy + a.oh + RowTop(k, h + a.ih), RowWidth(w, cols, c, u), h)
  }

  /** The width that d windows with their gaps are sure to fit in. */
  function Room(d: nat, gap: nat): nat {
    d * d * gap
  }

  /** A row at least cols * cols gaps wide never runs out of room. */
  lemma {:induction false} RoomLeft(w: int, cols: nat, gap: nat, c: nat)
    requires c < cols && Room(cols, gap) <= w < 0x1_0000_0000
    ensures Room(cols - c, gap) <= w - Used(w, cols, gap, c) <= w
  {
    hide Room, Unsigned;
    if c > 0 {
      var u, d := Used(w, cols, gap, c - 1), cols - (c - 1);
      RoomLeft(w, cols, gap, c - 1);
      RoomStep(w - u, d, gap);
      UnsignedIs(w - u);
      assert Used(w, cols, gap, c) == u + (w - u) / d + gap;
    }
  }

  lemma RoomStep(r: nat, d: nat, gap: nat)
    requires d >= 2 && Room(d, gap) <= r
    ensures Room(d - 1, gap) <= r - r / d - gap
  {
    assert d * d * gap == (d * gap) * d;
    ShareAtLeast(r, d, d * gap);
    RoomAlgebra(d, gap);
  }

  lemma ShareAtLeast(r: nat, d: nat, g: nat)
    requires d >= 2 && g * d <= r
    ensures g * (d - 1) <= r - r / d
  {
    var q := r / d;
    assert r == q * d + r % d;
    if q < g {
      Times(q, g, d);
    } else if g < q {
      Times(g, q, d - 1);
    }
    assert q * d == q * (d - 1) + q;
  }

  lemma RoomAlgebra(d: nat, gap: nat)
    requires d >= 2
    ensures (d * gap) * (d - 1) >= Room(d - 1, gap) + gap
  {
    var e := d - 1;
    assert (d * gap) * e == (e * gap + gap) * e == (e * gap) * e + gap * e;
    assert (e * gap) * e == e * e * gap;
    assert gap * e == gap * (e - 1) + gap;
  }

  lemma FirstUsed(w: int, cols: nat, gap: nat)
    ensures Used(w, cols, gap, 0) == 0
  {
  }

  lemma UsedNext(w: int, cols: nat, gap: nat, c: nat)
    requires c < cols
    ensures Used(w, cols, gap, c + 1) ==
      Used(w, cols, gap, c) + RowWidth(w, cols, c, Used(w, cols, gap, c)) + gap
  {
  }

  lemma LastWindow(w: int, cols: nat, gap: nat)
    requires cols > 0 && Room(cols, gap) <= w < 0x1_0000_0000
    ensures var u := Used(w, cols, gap, cols - 1); u + RowWidth(w, cols, cols - 1, u) == w
  {
    RoomLeft(w, cols, gap, cols - 1);
    hide Used;
  }

  function RowTop(k: nat, d: nat): nat {
    k * d
  }

  lemma NextRow(k: nat, d: nat)
    ensures RowTop(k + 1, d) == RowTop(k, d) + d && RowTop(0, d) == 0
  {
  }

  lemma LastRow(a: Area, rows: nat)
    requires rows > 0 && 0 <= Size(a.wh - 2 * a.oh, rows, a.ih) < 0x1_0000_0000
    ensures var h := RowHeight(a, rows);
      RowTop(rows - 1, h + a.ih) + h == a.wh - 2 * a.oh - Size(a.wh - 2 * a.oh, rows, a.ih) % rows
  {
    var s := Size(a.wh - 2 * a.oh, rows, a.ih);
    var h := s / rows;
    assert s == h * rows + s % rows;
    assert (rows - 1) * (h + a.ih) == h * rows - h + a.ih * (rows - 1);
  }

  /**
    * nrowgrid: rows and windows in a row are exactly a gap apart, each row ends at the right outer gap, and
    * the last row ends above the bottom one by what is left when the height is shared among the rows.
    */
  lemma NrowFills(a: Area, n: nat, rows: nat, k: nat, c: nat)
    requires k < rows <= n && c < InRow(n, rows, k)
    requires var cols := InRow(n, rows, k); Room(cols, a.iv) <= a.ww - 2 * a.ov < 0x1_0000_0000
    requires 0 <= Size(a.wh - 2 * a.oh, rows, a.ih) < 0x1_0000_0000
    ensures var cell, cols := NrowCell(a, n, rows, k, c), InRow(n, rows, k);
      && (c == 0 ==> cell.x == a.wx + a.ov)
      && (c == cols - 1 ==> cell.x + cell.w == a.wx + a.ww - a.ov)
      && (c < cols - 1 ==> var d := NrowCell(a, n, rows, k, c + 1);
        d.x == cell.x + cell.w + a.iv && d.y == cell.y && d.h == cell.h)
      && (k == 0 ==> cell.y == a.wy + a.oh)
      && (k < rows - 1 && InRow(n, rows, k + 1) > 0 ==>
        var d := NrowCell(a, n, rows, k + 1, 0); d.y == cell.y + cell.h + a.ih && d.h == cell.h)
      && (k == rows - 1 ==> cell.y + cell.h == a.wy + a.wh - a.oh - Size(a.wh - 2 * a.oh, rows, a.ih) % rows)
  {
    hide Filled, Room, Size, RowHeight, RowTop, Used, RowWidth;
    var w, cols, h := a.ww - 2 * a.ov, InRow(n, rows, k), RowHeight(a, rows);
    if c < cols - 1 {
      UsedNext(w, cols, a.iv, c);
    } else {
      LastWindow(w, cols, a.iv);
    }
    FirstUsed(w, cols, a.iv);
    NextRow(k, h + a.ih);
    LastRow(a, rows);
  }

  /**
    * A window of nrowgrid gets an equal share, whole pixels only, of the width that is left to it and those behind
    * it in its row; the rows get equal shares of the height without gaps.
    */
  lemma NrowEven(a: Area, n: nat, rows: nat, k: nat, c: nat)
    requires k < rows <= n && c < InRow(n, rows, k)
    requires var cols := InRow(n, rows, k); Room(cols, a.iv) <= a.ww - 2 * a.ov < 0x1_0000_0000
    requires 0 <= Size(a.wh - 2 * a.oh, rows, a.ih) < 0x1_0000_0000
    ensures var cell, d := NrowCell(a, n, rows, k, c), InRow(n, rows, k) - c;
      && cell.w * d <= a.wx + a.ww - a.ov - cell.x < (cell.w + 1) * d
      && cell.h * rows <= Size(a.wh - 2 * a.oh, rows, a.ih) < (cell.h + 1) * rows
  {
    hide Filled, Room, Size, Used, InRow;
    var w, cols, s := a.ww - 2 * a.ov, InRow(n, rows, k), Size(a.wh - 2 * a.oh, rows, a.ih);
    RoomLeft(w, cols, a.iv, c);
    UnsignedIs(w - Used(w, cols, a.iv, c));
    UnsignedIs(s);
    hide Unsigned;
    ShareOf(w - Used(w, cols, a.iv, c), cols - c);
    ShareOf(s, rows);
  }

  lemma ShareOf(m: nat, k: nat)
    requires k > 0
    ensures m / k * k <= m < (m / k + 1) * k
  {
    var q := m / k;
    assert m == q * k + m % k && (q + 1) * k == q * k + k;
  }

  /** So the last row ends at the bottom gap exactly if the height without gaps is a multiple of the rows. */
  lemma NrowFillsHeight(a: Area, n: nat, rows: nat, c: nat)
    requires 0 < rows <= n && c < InRow(n, rows, rows - 1)
    requires var cols := InRow(n, rows, rows - 1); Room(cols, a.iv) <= a.ww - 2 * a.ov < 0x1_0000_0000
    requires 0 <= Size(a.wh - 2 * a.oh, rows, a.ih) < 0x1_0000_0000
    ensures var cell := NrowCell(a, n, rows, rows - 1, c);
      cell.y + cell.h == a.wy + a.wh - a.oh <==> Size(a.wh - 2 * a.oh, rows, a.ih) % rows == 0
  {
    hide NrowCell, Size, Room;
    NrowFills(a, n, rows, rows - 1, c);
  }

  lemma {:induction false} UsedOrder(w: int, cols: nat, gap: nat, c: nat, d: nat)
    requires c < d <= cols
    ensures Used(w, cols, gap, c) + RowWidth(w, cols, c, Used(w, cols, gap, c)) + gap <= Used(w, cols, gap, d)
    decreases d
  {
    UsedNext(w, cols, gap, d - 1);
    hide Used, RowWidth;
    if c + 1 < d {
      UsedOrder(w, cols, gap, c, d - 1);
    }
  }

  lemma RowTopOrder(j: nat, k: nat, d: nat)
    requires j < k
    ensures RowTop(j, d) + d <= RowTop(k, d)
  {
    Times(j, k, d);
  }

  /** No two windows of nrowgrid overlap: an inner gap is between them. */
  lemma NrowApart(a: Area, n: nat, rows: nat, k: nat, c: nat, k': nat, c': nat)
    requires k < rows <= n && k' < rows && c < InRow(n, rows, k) && c' < InRow(n, rows, k')
    requires k < k' || (k == k' && c < c')
    ensures Apart(a, NrowCell(a, n, rows, k, c), NrowCell(a, n, rows, k', c'))
  {
    hide InRow, RowHeight, RowTop, RowWidth, Used;
    if k < k' {
      RowTopOrder(k, k', RowHeight(a, rows) + a.ih);
    } else {
      UsedOrder(a.ww - 2 * a.ov, InRow(n, rows, k), a.iv, c, c');
    }
  }

  lemma {:induction false} FilledOrder(n: nat, rows: nat, j: nat, k: nat)
    requires j < k <= rows <= n
    ensures Filled(n, rows, j) + InRow(n, rows, j) <= Filled(n, rows, k)
    decreases k
  {
    hide Filled;
    if j + 1 < k {
      FilledOrder(n, rows, j, k - 1);
      RowsEven(n, rows, k - 1);
    }
  }

  /** Window i is window c of row k and of no other. */
  lemma OnePlace(n: nat, rows: nat, k: nat, c: nat, k': nat, c': nat)
    requires k < rows <= n && k' < rows && c < InRow(n, rows, k) && c' < InRow(n, rows, k')
    requires Filled(n, rows, k) + c == Filled(n, rows, k') + c'
    ensures k == k' && c == c'
  {
    hide Filled;
    if k < k' {
      FilledOrder(n, rows, k, k');
    } else if k' < k {
      FilledOrder(n, rows, k', k);
    }
  }

  lemma RowEnds(n: nat, rows: nat, k: nat)
    requires k < rows <= n
    ensures Filled(n, rows, k) + InRow(n, rows, k) == Filled(n, rows, k + 1) <= n
    ensures k == rows - 1 ==> Filled(n, rows, k + 1) == n
    ensures InRow(n, rows, k) == Quot(n - Filled(n, rows, k), rows - k) > 0
  {
    RowShare(n - Filled(n, rows, k), rows - k);
  }

  predicate CellSized(a: Area, rows: nat, cs: seq<Win>, k: nat, c: nat)
    requires k < rows <= |cs| && c < InRow(|cs|, rows, k)
  {
    RowEnds(|cs|, rows, k);
    Sized(a, NrowCell(a, |cs|, rows, k, c), cs[Filled(|cs|, rows, k) + c].bw)
  }

  ghost predicate NrowSized(a: Area, rows: nat, cs: seq<Win>)
    requires rows <= |cs|
  {
    forall k: nat, c: nat {:trigger CellSized(a, rows, cs, k, c)} | k < rows && c < InRow(|cs|, rows, k) ::
      CellSized(a, rows, cs, k, c)
  }

  /** The gaps fit, every row is wide enough, and lengths are within 32 bits. */
  predicate NrowRoomy(a: Area, n: nat, rows: nat)
    requires rows <= n
  {
    && a.ww - 2 * a.ov < 0x1_0000_0000 && (forall k | 0 <= k < rows :: Room(InRow(n, rows, k), a.iv) <= a.ww - 2 * a.ov)
    && 0 <= Size(a.wh - 2 * a.oh, rows, a.ih) < 0x1_0000_0000
  }

  /** A cell of nrowgrid that is large enough also shows in the area. */
  lemma NrowFits(a: Area, n: nat, rows: nat, k: nat, c: nat, bw: nat)
    requires k < rows <= n && c < InRow(n, rows, k) && NrowRoomy(a, n, rows) && Sized(a, NrowCell(a, n, rows, k, c), bw)
    ensures Fits(a, NrowCell(a, n, rows, k, c), bw)
  {
    hide InRow, Room, Size, RowHeight, Used, RowTop;
    var w, cols, h := a.ww - 2 * a.ov, InRow(n, rows, k), RowHeight(a, rows);
    RoomLeft(w, cols, a.iv, c);
    var u := Used(w, cols, a.iv, c);
    UnsignedIs(w - u);
    ShareAtMost(w - u, cols - c);
    UsedNonneg(w, cols, a.iv, c);
    LastRow(a, rows);
    NextRow(k, h + a.ih);
    TopOfLast(rows, h + a.ih);
    if k < rows - 1 {
      RowTopOrder(k, rows - 1, h + a.ih);
    }
  }

  lemma TopOfLast(rows: nat, d: nat)
    requires rows > 0
    ensures RowTop(rows - 1, d) == (rows - 1) * d
  {
  }

  lemma ShareAtMost(x: nat, k: nat)
    requires k > 0
    ensures x / k <= x
  {
    NotMore(x / k, k, x % k);
  }

  lemma NotMore(q: nat, k: nat, r: nat)
    requires k > 0
    ensures q <= q * k + r
  {
    Product(q, k - 1);
  }

  lemma {:induction false} UsedNonneg(w: int, cols: nat, gap: nat, c: nat)
    requires c <= cols
    ensures Used(w, cols, gap, c) >= 0
  {
    if c > 0 {
      UsedNonneg(w, cols, gap, c - 1);
    }
  }

  /** Window c of row k, if it is one of the first i windows, is in its cell. */
  predicate Placed(a: Area, rows: nat, g: seq<Cell>, k: nat, c: nat, i: nat)
    requires k < rows <= |g| && c < InRow(|g|, rows, k)
  {
    RowEnds(|g|, rows, k);
    var j := Filled(|g|, rows, k) + c;
    j < i ==> g[j] == NrowCell(a, |g|, rows, k, c)
  }

  ghost predicate AllPlaced(a: Area, rows: nat, g: seq<Cell>, i: nat)
    requires rows <= |g|
  {
    forall k: nat, c: nat {:trigger Placed(a, rows, g, k, c, i)} | k < rows && c < InRow(|g|, rows, k) ::
      Placed(a, rows, g, k, c, i)
  }

  /** A window is put into its cell, window ci of row ri. */
  method PutInRow(a: Area, cs: seq<Win>, i: nat, x: int, y: int, w: int, h: int, ghost rows: nat, ghost ri: nat,
        ghost ci: nat, ghost good: bool)
    requires Distinct(cs) && i < |cs| && ri < rows <= |cs| && ci < InRow(|cs|, rows, ri)
    requires i == Filled(|cs|, rows, ri) + ci && NrowCell(a, |cs|, rows, ri, ci) == Cell(x, y, w, h)
    requires good ==> NrowRoomy(a, |cs|, rows) && NrowSized(a, rows, cs) && AllPlaced(a, rows, Outers(cs), i)
    modifies cs[i]
    ensures good ==> AllPlaced(a, rows, Outers(cs), i + 1)
  {
    hide Distinct, Filled, Fits, Limited, Max, NrowCell, NrowSized, NrowRoomy, AllPlaced, Placed, Outers, InRow;
    if good {
      SizedAt(a, rows, cs, ri, ci);
    }
    ghost var g := Outers(cs);
    Put(a, cs, i, x, y, w, h);
    if good {
      PlacedNext(a, rows, g, Outers(cs), ri, ci, i);
    }
  }

  /** nrowgrid: a row more than masters, at most one for each window; FORCE_VSPLIT puts two windows in one row. */
  method Nrowgrid(a: Area, nmaster: nat, cs: seq<Win>)
    requires Distinct(cs)
    modifies cs
    ensures var rows := if |cs| == 2 then 1 else Min(nmaster + 1, |cs|);
      NrowRoomy(a, |cs|, rows) && NrowSized(a, rows, cs) ==> AllPlaced(a, rows, Outers(cs), |cs|)
  {
    hide Filled, Fits, Limited, Max, RowWidth, RowHeight, RowTop, Used, NrowCell, NrowSized, NrowRoomy, AllPlaced,
      Placed, Outers, InRow, Quot;
    var n := |cs|;
    var rows := if n == 2 then 1 else nmaster + 1;
    if n < rows {
      rows := n;
    }
    ghost var good := NrowRoomy(a, n, rows) && NrowSized(a, rows, cs);
    NonePlaced(a, rows, Outers(cs));
    if n == 0 {
      return;
    }
    var w := a.ww - 2 * a.ov;
    var cols := Quot(n, rows);
    var ri, ci, uc, uw := 0, 0, cols, 0;
    var ch := RowHeight(a, rows);
    var cy, uh := a.wy + a.oh, ch;
    FirstRow(n, rows, w, cols, a.iv, ch + a.ih);
    for i := 0 to n
      invariant ri < rows && ci <= cols && cols == InRow(n, rows, ri) && uc == Filled(n, rows, ri + 1)
      invariant i == Filled(n, rows, ri) + ci
      invariant uw == Used(w, cols, a.iv, ci)
      invariant cy == a.wy + a.oh + RowTop(ri, ch + a.ih) && uh == ch + RowTop(ri, ch + a.ih)
      invariant good ==> AllPlaced(a, rows, Outers(cs), i)
    {
      RowEnds(n, rows, ri);
      if ci == cols {
        uw, ci, ri := 0, 0, ri + 1;
        RowEnds(n, rows, ri);
        cols := Quot(n - uc, rows - ri);
        uc := uc + cols;
        cy := a.wy + a.oh + uh + a.ih;
        NextRow(ri - 1, ch + a.ih);
        uh := uh + ch + a.ih;
        FirstUsed(w, cols, a.iv);
      }
      RowEnds(n, rows, ri);
      var cx := a.wx + a.ov + uw;
      var cw := RowWidth(w, cols, ci, uw);
      UsedNext(w, cols, a.iv, ci);
      uw := uw + cw + a.iv;
      CellIs(a, n, rows, ri, ci);
      PutInRow(a, cs, i, cx, cy, cw, ch, rows, ri, ci, good);
      ci := ci + 1;
    }
  }

  lemma NonePlaced(a: Area, rows: nat, g: seq<Cell>)
    requires rows <= |g|
    ensures AllPlaced(a, rows, g, 0)
  {
  }

  lemma FirstRow(n: nat, rows: nat, w: int, cols: nat, gap: nat, d: nat)
    requires 0 < rows <= n
    ensures Quot(n, rows) == InRow(n, rows, 0) == Filled(n, rows, 1) && Filled(n, rows, 0) == 0
    ensures Used(w, cols, gap, 0) == 0 && RowTop(0, d) == 0
  {
  }

  lemma CellIs(a: Area, n: nat, rows: nat, k: nat, c: nat)
    requires k < rows <= n && c < InRow(n, rows, k)
    ensures var w, cols, h := a.ww - 2 * a.ov, InRow(n, rows, k), RowHeight(a, rows);
      var u := Used(w, cols, a.iv, c);
      NrowCell(a, n, rows, k, c) == Cell(a.wx + a.ov + u, a.wy + a.oh + RowTop(k, h + a.ih), RowWidth(w, cols, c, u), h)
  {
  }

  lemma SizedAt(a: Area, rows: nat, cs: seq<Win>, k: nat, c: nat)
    requires rows <= |cs| && NrowSized(a, rows, cs) && NrowRoomy(a, |cs|, rows) && k < rows && c < InRow(|cs|, rows, k)
    ensures Filled(|cs|, rows, k) + c < |cs|
    ensures Fits(a, NrowCell(a, |cs|, rows, k, c), cs[Filled(|cs|, rows, k) + c].bw)
  {
    hide Filled, Fits;
    RowEnds(|cs|, rows, k);
    assert CellSized(a, rows, cs, k, c);
    NrowFits(a, |cs|, rows, k, c, cs[Filled(|cs|, rows, k) + c].bw);
  }

  lemma PlacedNext(a: Area, rows: nat, g: seq<Cell>, g': seq<Cell>, k: nat, c: nat, i: nat)
    requires rows <= |g| && AllPlaced(a, rows, g, i)
    requires k < rows && c < InRow(|g|, rows, k) && i == Filled(|g|, rows, k) + c && i < |g|
    requires |g'| == |g| && g'[i] == NrowCell(a, |g|, rows, k, c) && forall j | 0 <= j < i :: g'[j] == g[j]
    ensures AllPlaced(a, rows, g', i + 1)
  {
    hide Filled, NrowCell;
    forall k': nat, c': nat {:trigger Placed(a, rows, g', k', c', i + 1)} | k' < rows && c' < InRow(|g|, rows, k')
      ensures Placed(a, rows, g', k', c', i + 1)
    {
      RowEnds(|g|, rows, k');
      assert Placed(a, rows, g, k', c', i);
      if Filled(|g|, rows, k') + c' == i {
        OnePlace(|g|, rows, k, c, k', c');
      }
    }
  }
}
