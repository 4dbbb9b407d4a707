/**
  * The tile and bstack layouts of vanitygaps.c: windows share a master and a stack area in proportion to
  * their factors, whole pixels first and the rest one pixel each. Factors are reals.
  */
module Tilings {

  /** A monitor's window area, its gaps and the height of the bar, the smallest size of a window. */
  datatype Area = Area(wx: int, wy: int, ww: int, wh: int, oh: nat, ov: nat, ih: nat, iv: nat, bh: nat)

  /** A window with its borders. */
  datatype Cell = Cell(x: int, y: int, w: int, h: int)

  /** C's conversion of a floating value to int. */
  function Trunc(r: real): int {
    if r >= 0.0 then r.Floor else 0 - (0.0 - r).Floor
  }

  /** The fraction is cut off, so that the result is nearer to zero by less than one. */
  lemma TruncIs(r: real)
    ensures r >= 0.0 ==> Trunc(r) as real <= r < Trunc(r) as real + 1.0
    ensures r <= 0.0 ==> Trunc(r) as real - 1.0 < r <= Trunc(r) as real
  {
  }

  /** C's comparison of an unsigned with an int, which it takes modulo the word size. */
  predicate Below(i: nat, r: int) {
    r < 0 || i < r
  }

  function Max(a: int, b: int): int {
    if a > b then a else b
  }

  // ---------------------------------------------------------------------------------------------
  // Sharing a length by factors

  function Total(fs: seq<real>): real {
    if fs == [] then 0.0 else Total(fs[..|fs| - 1]) + fs[|fs| - 1]
  }

  /** The exact share, of which whole pixels are taken. */
  function Part(size: int, f: real, total: real): real
    requires total != 0.0
  {
    size as real * (f / total)
  }

  function Share(size: int, f: real, total: real): int
    requires total != 0.0
  {
    Trunc(Part(size, f, total))
  }

  /** The sum of the shares as getfacts accumulates it. */
  function SumShares(size: int, fs: seq<real>, total: real): int
    requires total != 0.0
  {
    if fs == [] then 0
    else Trunc(SumShares(size, fs[..|fs| - 1], total) as real + Part(size, fs[|fs| - 1], total))
  }

  predicate Positive(fs: seq<real>) {
    forall i | 0 <= i < |fs| :: fs[i] > 0.0
  }

  lemma {:induction false} TotalPositive(fs: seq<real>)
    requires Positive(fs)
    ensures Total(fs) >= 0.0 && (fs != [] ==> Total(fs) > 0.0)
  {
    if fs != [] {
      TotalPositive(fs[..|fs| - 1]);
    }
  }

  /** The length of piece i when size is shared by the factors fs, with the rest given out in pixels. */
  function Piece(size: int, fs: seq<real>, i: nat): int
    requires Positive(fs) && i < |fs|
  {
    TotalPositive(fs);
    Share(size, fs[i], Total(fs)) + if Below(i, size - SumShares(size, fs, Total(fs))) then 1 else 0
  }

  /** The sum of the first n pieces. */
  function Pieces(size: int, fs: seq<real>, n: nat): int
    requires Positive(fs) && n <= |fs|
  {
    if n == 0 then 0 else Pieces(size, fs, n - 1) + Piece(size, fs, n - 1)
  }

  lemma TruncAdd(n: int, x: real)
    requires n >= 0 && x >= 0.0
    ensures Trunc(n as real + x) == n + Trunc(x)
    ensures 0 <= Trunc(x) && Trunc(x) as real <= x < Trunc(x) as real + 1.0
  {
  }

  lemma Parts(size: int, a: real, f: real, t: real)
    requires t > 0.0 && size >= 0 && f >= 0.0
    ensures Part(size, a + f, t) == Part(size, a, t) + Part(size, f, t)
    ensures Part(size, f, t) >= 0.0
    ensures Part(size, t, t) == size as real && Part(size, 0.0, t) == 0.0
  {
    assert (a + f) / t == a / t + f / t;
    assert f / t >= 0.0;
  }

  /** Shares are nonnegative and fall short of the exact sum by less than one pixel each. */
  lemma {:induction false} SharesBound(size: int, fs: seq<real>, total: real)
    requires size >= 0 && total > 0.0 && Positive(fs)
    ensures 0 <= SumShares(size, fs, total)
    ensures SumShares(size, fs, total) as real <= Part(size, Total(fs), total)
    ensures fs != [] ==> Part(size, Total(fs), total) < SumShares(size, fs, total) as real + |fs| as real
  {
    hide Part, Trunc;
    if fs == [] {
      Parts(size, 0.0, 0.0, total);
    } else {
      var g, f := fs[..|fs| - 1], fs[|fs| - 1];
      SharesBound(size, g, total);
      Parts(size, Total(g), f, total);
      Parts(size, 0.0, 0.0, total);
      TruncAdd(SumShares(size, g, total), Part(size, f, total));
    }
  }

  lemma SumSharesStep(size: int, fs: seq<real>, total: real)
    requires size >= 0 && total > 0.0 && Positive(fs) && fs != []
    ensures SumShares(size, fs, total) == SumShares(size, fs[..|fs| - 1], total) + Share(size, fs[|fs| - 1], total)
    ensures Share(size, fs[|fs| - 1], total) >= 0
  {
    hide Part, Trunc;
    SharesBound(size, fs[..|fs| - 1], total);
    Parts(size, 0.0, fs[|fs| - 1], total);
    TruncAdd(SumShares(size, fs[..|fs| - 1], total), Part(size, fs[|fs| - 1], total));
  }

  /** The pixels of the rest among the first n pieces. */
  function Bonus(size: int, fs: seq<real>, n: nat): int
    requires Total(fs) != 0.0
  {
    var rest := size - SumShares(size, fs, Total(fs));
    if Below(n, rest) then n else rest
  }

  lemma {:induction false} PiecesAre(size: int, fs: seq<real>, n: nat)
    requires size >= 0 && Positive(fs) && n <= |fs|
    ensures Total(fs) > 0.0 ==> Pieces(size, fs, n) == SumShares(size, fs[..n], Total(fs)) + Bonus(size, fs, n)
  {
    if n > 0 && Total(fs) > 0.0 {
      PiecesAre(size, fs, n - 1);
      assert fs[..n][..n - 1] == fs[..n - 1];
      SumSharesStep(size, fs[..n], Total(fs));
      PiecesRest(size, fs);
    } else {
      TotalPositive(fs);
      if fs != [] {
        PiecesRest(size, fs);
      }
    }
  }

  lemma PiecesRest(size: int, fs: seq<real>)
    requires size >= 0 && Positive(fs) && fs != []
    ensures Total(fs) > 0.0 && 0 <= size - SumShares(size, fs, Total(fs)) < |fs|
  {
    TotalPositive(fs);
    SharesBound(size, fs, Total(fs));
    Parts(size, 0.0, 0.0, Total(fs));
  }

  /** The pieces fill the length exactly, and none is negative. */
  lemma PiecesFill(size: int, fs: seq<real>)
    requires size >= 0 && Positive(fs) && fs != []
    ensures Pieces(size, fs, |fs|) == size
    ensures forall i | 0 <= i < |fs| :: Piece(size, fs, i) >= 0
  {
    PiecesRest(size, fs);
    PiecesAre(size, fs, |fs|);
    assert fs[..|fs|] == fs;
    forall i | 0 <= i < |fs| ensures Piece(size, fs, i) >= 0 {
      Parts(size, 0.0, fs[i], Total(fs));
    }
  }

  /** What piece i of a length would be without rounding. */
  function Fair(size: int, fs: seq<real>, i: nat): real
    requires Positive(fs) && i < |fs|
  {
    TotalPositive(fs);
    size as real * (fs[i] / Total(fs))
  }

  /**
    * Every piece is the whole pixels of its fair part, or one pixel more; those with one more come first. As the
    * pieces fill the length, that settles each of them.
    */
  lemma PiecesFair(size: int, fs: seq<real>, i: nat)
    requires size >= 0 && Positive(fs) && i < |fs|
    ensures Piece(size, fs, i) == Fair(size, fs, i).Floor || Piece(size, fs, i) == Fair(size, fs, i).Floor + 1
    ensures forall j | 0 <= j < i && Piece(size, fs, i) == Fair(size, fs, i).Floor + 1 ::
      Piece(size, fs, j) == Fair(size, fs, j).Floor + 1
  {
    hide SumShares;
    TotalPositive(fs);
    PiecesRest(size, fs);
    forall j | 0 <= j <= i ensures Share(size, fs[j], Total(fs)) == Fair(size, fs, j).Floor {
      Parts(size, 0.0, fs[j], Total(fs));
    }
  }

  /** Where piece i starts when pieces are a gap apart. */
  function Offset(size: int, fs: seq<real>, gap: nat, i: nat): int
    requires Positive(fs) && i <= |fs|
  {
    if i == 0 then 0 else Offset(size, fs, gap, i - 1) + Piece(size, fs, i - 1) + gap
  }

  lemma {:induction false} OffsetIs(size: int, fs: seq<real>, gap: nat, i: nat)
    requires Positive(fs) && i <= |fs|
    ensures Offset(size, fs, gap, i) == Pieces(size, fs, i) + i * gap
  {
    if i > 0 {
      OffsetIs(size, fs, gap, i - 1);
    }
  }

  /** Pieces of a length cut from len for the gaps between them: they stay within len, the last ends there. */
  lemma {:induction false} OffsetsFill(len: int, fs: seq<real>, gap: nat, i: nat)
    requires Positive(fs) && i < |fs| && len - gap * (|fs| - 1) >= 0
    ensures var size := len - gap * (|fs| - 1);
      && 0 <= Offset(size, fs, gap, i) && Piece(size, fs, i) >= 0
      && Offset(size, fs, gap, i) + Piece(size, fs, i) <= len
      && (i == |fs| - 1 ==> Offset(size, fs, gap, i) + Piece(size, fs, i) == len)
      && (i < |fs| - 1 ==> Offset(size, fs, gap, i) + Piece(size, fs, i) + gap == Offset(size, fs, gap, i + 1))
    decreases |fs| - i
  {
    hide Piece;
    var size := len - gap * (|fs| - 1);
    PiecesFill(size, fs);
    if i == |fs| - 1 {
      OffsetIs(size, fs, gap, |fs|);
    } else {
      OffsetsFill(len, fs, gap, i + 1);
    }
    OffsetNonneg(size, fs, gap, i);
  }

  lemma {:induction false} OffsetNonneg(size: int, fs: seq<real>, gap: nat, i: nat)
    requires Positive(fs) && i <= |fs| && size >= 0
    ensures Offset(size, fs, gap, i) >= 0
  {
    hide Piece;
    if i > 0 {
      PiecesFill(size, fs);
      OffsetNonneg(size, fs, gap, i - 1);
    }
  }

  // ---------------------------------------------------------------------------------------------
  // The cells of tile and bstack

  function Flip(a: Area): Area {
    Area(a.wy, a.wx, a.wh, a.ww, a.ov, a.oh, a.iv, a.ih, a.bh)
  }

  function Turn(c: Cell): Cell {
    Cell(c.y, c.x, c.h, c.w)
  }

  function Min(a: int, b: int): int {
    if a < b then a else b
  }

  function Masters(nmaster: nat, n: nat): nat {
    if nmaster < n then nmaster else n
  }

  /** The height that the pieces of a column of k windows share. */
  function Height(a: Area, k: int): int {
    a.wh - 2 * a.oh - a.ih * (k - 1)
  }

  /** The cell of window i of a column that starts at x and y and shares size by the factors fs. */
  function ColumnCell(x: int, y: int, w: int, size: int, fs: seq<real>, gap: nat, i: nat): Cell
    requires Positive(fs) && i < |fs|
  {
    Cell(x, y + Offset(size, fs, gap, i), w, Piece(size, fs, i))
  }

  /** Where the two columns are, how wide, and the lengths that their windows share. */
  datatype Plan = Plan(mx: int, sx: int, y: int, mw: int, sw: int, mh: int, sh: int)

  function PlanOf(a: Area, nmaster: nat, mfact: real, n: nat): Plan {
    var x, w := a.wx + a.ov, a.ww - 2 * a.ov;
    var mh, sh := Height(a, Masters(nmaster, n)), Height(a, n - nmaster);
    if nmaster > 0 && n > nmaster then
      var sw := Trunc((w - a.iv) as real * (1.0 - mfact));
      Plan(x, x + w - sw, a.wy + a.oh, w - a.iv - sw, sw, mh, sh)
    else
      Plan(x, x, a.wy + a.oh, w, w, mh, sh)
  }

  /** The cell of window i when the first k windows are in the master column. */
  function Slot(p: Plan, fs: seq<real>, k: nat, gap: nat, i: nat): Cell
    requires Positive(fs) && i < |fs| && k <= |fs|
  {
    if i < k then ColumnCell(p.mx, p.y, p.mw, p.mh, fs[..k], gap, i)
    else ColumnCell(p.sx, p.y, p.sw, p.sh, fs[k..], gap, i - k)
  }

  /** The cell of window i in the tile layout. */
  function TileCell(a: Area, nmaster: nat, mfact: real, fs: seq<real>, i: nat): Cell
    requires Positive(fs) && i < |fs|
  {
    Slot(PlanOf(a, nmaster, mfact, |fs|), fs, Masters(nmaster, |fs|), a.ih, i)
  }

  function BstackCell(a: Area, nmaster: nat, mfact: real, fs: seq<real>, i: nat): Cell
    requires Positive(fs) && i < |fs|
  {
    Turn(TileCell(Flip(a), nmaster, mfact, fs, i))
  }

  /** The window area is at least as high as its gaps. */
  predicate Roomy(a: Area, nmaster: nat, n: nat) {
    var k := Masters(nmaster, n);
    (k > 0 ==> Height(a, k) >= 0) && (k < n ==> Height(a, n - k) >= 0)
  }

  /**
    * tile fills its area: the windows of each column start at the outer gap, are exactly one inner gap apart
    * and end at the outer gap; the columns start at the outer gap, are one inner gap apart and end at the
    * outer gap.
    */
  lemma TileFills(a: Area, nmaster: nat, mfact: real, fs: seq<real>, i: nat)
    requires Positive(fs) && i < |fs| && Roomy(a, nmaster, |fs|)
    ensures var k := Masters(nmaster, |fs|);
      var c := TileCell(a, nmaster, mfact, fs, i);
      && (i == 0 || i == k ==> c.y == a.wy + a.oh)
      && (i + 1 == k || i + 1 == |fs| ==> c.y + c.h == a.wy + a.wh - a.oh)
      && (i + 1 < |fs| && i + 1 != k ==>
        var d := TileCell(a, nmaster, mfact, fs, i + 1);
        d.y == c.y + c.h + a.ih && d.x == c.x && d.w == c.w)
      && a.wy + a.oh <= c.y && 0 <= c.h && c.y + c.h <= a.wy + a.wh - a.oh
      && (i < k || k == 0 ==> c.x == a.wx + a.ov)
      && (i >= k || k == |fs| ==> c.x + c.w == a.wx + a.ww - a.ov)
      && (i >= k > 0 ==> c.x == TileCell(a, nmaster, mfact, fs, 0).x + TileCell(a, nmaster, mfact, fs, 0).w + a.iv)
  {
    hide Piece, Trunc;
    var k := Masters(nmaster, |fs|);
    var len := a.wh - 2 * a.oh;
    if i < k {
      OffsetsFill(len, fs[..k], a.ih, i);
    } else {
      OffsetsFill(len, fs[k..], a.ih, i - k);
    }
  }

  /**
    * The master column gets the share mfact of the width, rounded up, and the stack the rest; a single column gets
    * all of it. Within its column a window gets its fair part of the height up to a pixel.
    */
  lemma TileShares(a: Area, nmaster: nat, mfact: real, fs: seq<real>, i: nat)
    requires Positive(fs) && i < |fs| && Roomy(a, nmaster, |fs|)
    ensures var k := Masters(nmaster, |fs|);
      var c := TileCell(a, nmaster, mfact, fs, i);
      && (k == 0 || k == |fs| ==> c.w == a.ww - 2 * a.ov)
      && (0 < k < |fs| && 0.0 <= mfact <= 1.0 && a.ww - 2 * a.ov - a.iv >= 0 ==>
        var w := (a.ww - 2 * a.ov - a.iv) as real;
        if i < k then w * mfact <= c.w as real < w * mfact + 1.0
        else w * (1.0 - mfact) - 1.0 < c.w as real <= w * (1.0 - mfact))
      && (i < k ==> 0 <= c.h - Fair(Height(a, k), fs[..k], i).Floor <= 1)
      && (i >= k ==> 0 <= c.h - Fair(Height(a, |fs| - k), fs[k..], i - k).Floor <= 1)
  {
    hide Piece, Fair, Offset, Trunc, PlanOf;
    var k := Masters(nmaster, |fs|);
    PlanOne(a, nmaster, mfact, |fs|);
    if 0 < k < |fs| && 0.0 <= mfact <= 1.0 && a.ww - 2 * a.ov - a.iv >= 0 {
      PlanTwo(a, nmaster, mfact, |fs|, a.ww - 2 * a.ov - a.iv);
    }
    if i < k {
      PiecesFair(Height(a, k), fs[..k], i);
    } else {
      PiecesFair(Height(a, |fs| - k), fs[k..], i - k);
    }
  }

  lemma PlanOne(a: Area, nmaster: nat, mfact: real, n: nat)
    ensures var k, p := Masters(nmaster, n), PlanOf(a, nmaster, mfact, n);
      && p.mh == Height(a, k) && (k < n ==> p.sh == Height(a, n - k))
      && (k == 0 || k == n ==> p.mw == p.sw == a.ww - 2 * a.ov)
  {
  }

  /** The widths of two columns. */
  lemma PlanTwo(a: Area, nmaster: nat, mfact: real, n: nat, w: int)
    requires 0 < nmaster < n && 0.0 <= mfact <= 1.0 && w == a.ww - 2 * a.ov - a.iv >= 0
    ensures var p := PlanOf(a, nmaster, mfact, n);
      && w as real * mfact <= p.mw as real < w as real * mfact + 1.0
      && w as real * (1.0 - mfact) - 1.0 < p.sw as real <= w as real * (1.0 - mfact)
  {
    SharesOf(w, mfact, Trunc(w as real * (1.0 - mfact)), w as real * mfact, w as real * (1.0 - mfact));
  }

  lemma SharesOf(w: int, f: real, s: int, p: real, q: real)
    requires w >= 0 && 0.0 <= f <= 1.0 && p == w as real * f && q == w as real * (1.0 - f) && s == Trunc(q)
    ensures q - 1.0 < s as real <= q && p <= (w - s) as real < p + 1.0
  {
    assert w as real * (1.0 - f) == w as real - w as real * f;
    assert w as real * (1.0 - f) >= 0.0;
  }

  lemma {:induction false} OffsetOrder(size: int, fs: seq<real>, gap: nat, i: nat, j: nat)
    requires Positive(fs) && i < j <= |fs| && size >= 0
    ensures Offset(size, fs, gap, i) + Piece(size, fs, i) + gap <= Offset(size, fs, gap, j)
    decreases j
  {
    hide Piece;
    if i + 1 < j {
      PiecesFill(size, fs);
      OffsetOrder(size, fs, gap, i, j - 1);
    }
  }

  /** Cells apart by an inner gap, side by side or one above the other. */
  predicate Apart(a: Area, c: Cell, d: Cell) {
    c.y + c.h + a.ih <= d.y || c.x + c.w + a.iv <= d.x
  }

  /** No two windows of tile overlap: there is an inner gap between them. */
  lemma TileApart(a: Area, nmaster: nat, mfact: real, fs: seq<real>, i: nat, j: nat)
    requires Positive(fs) && i < j < |fs| && Roomy(a, nmaster, |fs|)
    ensures Apart(a, TileCell(a, nmaster, mfact, fs, i), TileCell(a, nmaster, mfact, fs, j))
  {
    hide Piece, Trunc;
    var k := Masters(nmaster, |fs|);
    if j < k {
      OffsetOrder(Height(a, k), fs[..k], a.ih, i, j);
    } else if i >= k {
      OffsetOrder(Height(a, |fs| - k), fs[k..], a.ih, i - k, j - k);
    }
  }

  /** bstack fills its area, with rows in the place of columns. */
  lemma BstackFills(a: Area, nmaster: nat, mfact: real, fs: seq<real>, i: nat)
    requires Positive(fs) && i < |fs| && Roomy(Flip(a), nmaster, |fs|)
    ensures var k := Masters(nmaster, |fs|);
      var c := BstackCell(a, nmaster, mfact, fs, i);
      && (i == 0 || i == k ==> c.x == a.wx + a.ov)
      && (i + 1 == k || i + 1 == |fs| ==> c.x + c.w == a.wx + a.ww - a.ov)
      && (i + 1 < |fs| && i + 1 != k ==>
        var d := BstackCell(a, nmaster, mfact, fs, i + 1);
        d.x == c.x + c.w + a.iv && d.y == c.y && d.h == c.h)
      && (i < k || k == 0 ==> c.y == a.wy + a.oh)
      && (i >= k || k == |fs| ==> c.y + c.h == a.wy + a.wh - a.oh)
      && (i >= k > 0 ==> c.y == BstackCell(a, nmaster, mfact, fs, 0).y + BstackCell(a, nmaster, mfact, fs, 0).h + a.ih)
      && forall j | i < j < |fs| :: Apart(a, c, BstackCell(a, nmaster, mfact, fs, j))
  {
    hide Piece, Trunc, Offset;
    TileFills(Flip(a), nmaster, mfact, fs, i);
    forall j | i < j < |fs|
      ensures Apart(a, BstackCell(a, nmaster, mfact, fs, i), BstackCell(a, nmaster, mfact, fs, j))
    {
      TileApart(Flip(a), nmaster, mfact, fs, i, j);
    }
  }

  /** In bstack the master row gets the share mfact of the height, and a window its fair part of its row's width. */
  lemma BstackShares(a: Area, nmaster: nat, mfact: real, fs: seq<real>, i: nat)
    requires Positive(fs) && i < |fs| && Roomy(Flip(a), nmaster, |fs|)
    ensures var k := Masters(nmaster, |fs|);
      var c := BstackCell(a, nmaster, mfact, fs, i);
      && (k == 0 || k == |fs| ==> c.h == a.wh - 2 * a.oh)
      && (0 < k < |fs| && 0.0 <= mfact <= 1.0 && a.wh - 2 * a.oh - a.ih >= 0 ==>
        var h := (a.wh - 2 * a.oh - a.ih) as real;
        if i < k then h * mfact <= c.h as real < h * mfact + 1.0
        else h * (1.0 - mfact) - 1.0 < c.h as real <= h * (1.0 - mfact))
      && (i < k ==> 0 <= c.w - Fair(a.ww - 2 * a.ov - a.iv * (k - 1), fs[..k], i).Floor <= 1)
      && (i >= k ==> 0 <= c.w - Fair(a.ww - 2 * a.ov - a.iv * (|fs| - k - 1), fs[k..], i - k).Floor <= 1)
  {
    hide Piece, Fair, Offset, Trunc;
    TileShares(Flip(a), nmaster, mfact, fs, i);
  }

  // ---------------------------------------------------------------------------------------------
  // The layouts

  class Win {
    const bw: nat
    const cfact: real
    var x: int
    var y: int
    var w: int
    var h: int

    constructor (bw: nat, cfact: real)
    {
      this.bw, this.cfact := bw, cfact;
      x, y, w, h := 0, 0, 1, 1;
    }

    /** The window with its borders. */
    function Outer(): Cell
      reads this`x, this`y, this`w, this`h
    {
      Cell(x, y, w + 2 * bw, h + 2 * bw)
    }

    /** resize of a tiled window, with the limits of applysizehints and no size hints */
    method Resize(a: Area, x: int, y: int, w: int, h: int)
      modifies this`x, this`y, this`w, this`h
      ensures this.w == Max(Max(1, w), a.bh) && this.h == Max(Max(1, h), a.bh)
      ensures this.x == Limited(x, Max(1, w) + 2 * bw, a.wx, a.ww, old(this.w) + 2 * bw)
      ensures this.y == Limited(y, Max(1, h) + 2 * bw, a.wy, a.wh, old(this.h) + 2 * bw)
      ensures Fits(a, Cell(x, y, w + 2 * bw, h + 2 * bw), bw) ==> Outer() == Cell(x, y, w + 2 * bw, h + 2 * bw)
    {
      var nx, ny, nw, nh := x, y, Max(1, w), Max(1, h);
      if nx >= a.wx + a.ww {
        nx := a.wx + a.ww - (this.w + 2 * bw);
      }
      if ny >= a.wy + a.wh {
        ny := a.wy + a.wh - (this.h + 2 * bw);
      }
      if nx + nw + 2 * bw <= a.wx {
        nx := a.wx;
      }
      if ny + nh + 2 * bw <= a.wy {
        ny := a.wy;
      }
      if nh < a.bh {
        nh := a.bh;
      }
      if nw < a.bh {
        nw := a.bh;
      }
      this.x, this.y, this.w, this.h := nx, ny, nw, nh;
    }
  }

  /** A coordinate that is moved when the window would not show in its area. */
  function Limited(p: int, size: int, lo: int, len: int, oldSize: int): int {
    var q := if p >= lo + len then lo + len - oldSize else p;
    if q + size <= lo then lo else q
  }

  /** A cell that resize takes as it is. */
  predicate Fits(a: Area, c: Cell, bw: nat) {
    && c.w - 2 * bw >= Max(1, a.bh) && c.h - 2 * bw >= Max(1, a.bh)
    && c.x < a.wx + a.ww && c.y < a.wy + a.wh && c.x + c.w > a.wx && c.y + c.h > a.wy
  }

  function Facts(cs: seq<Win>): (fs: seq<real>)
    ensures |fs| == |cs|
  {
    seq(|cs|, i requires 0 <= i < |cs| => cs[i].cfact)
  }

  /** A window with the borders bw is at least as high and as wide as the bar. */
  predicate Sized(a: Area, c: Cell, bw: nat) {
    c.w - 2 * bw >= Max(1, a.bh) && c.h - 2 * bw >= Max(1, a.bh)
  }

  predicate TileSized(a: Area, nmaster: nat, mfact: real, cs: seq<Win>)
    requires Positive(Facts(cs))
  {
    forall i | 0 <= i < |cs| :: Sized(a, TileCell(a, nmaster, mfact, Facts(cs), i), cs[i].bw)
  }

  /** Cells of a size that resize accepts also show in the area. */
  lemma TileFits(a: Area, nmaster: nat, mfact: real, cs: seq<Win>, i: nat)
    requires Positive(Facts(cs)) && i < |cs| && Roomy(a, nmaster, |cs|) && TileSized(a, nmaster, mfact, cs)
    ensures Fits(a, TileCell(a, nmaster, mfact, Facts(cs), i), cs[i].bw)
    ensures TileCell(a, nmaster, mfact, Facts(cs), i).h >= 2 * cs[i].bw
    ensures TileCell(a, nmaster, mfact, Facts(cs), i).w >= 2 * cs[i].bw
  {
    hide Piece, Trunc, Offset;
    TileFills(a, nmaster, mfact, Facts(cs), i);
    assert Sized(a, TileCell(a, nmaster, mfact, Facts(cs), 0), cs[0].bw);
    assert Sized(a, TileCell(a, nmaster, mfact, Facts(cs), |cs| - 1), cs[|cs| - 1].bw);
  }

  predicate Distinct(cs: seq<Win>) {
    forall i, j | 0 <= i < j < |cs| :: cs[i] != cs[j]
  }

  /** getfacts */
  method GetFacts(cs: seq<Win>, nmaster: nat, msize: int, ssize: int) returns (mf: real, sf: real, mr: int, sr: int)
    requires Positive(Facts(cs))
    ensures var fs, k := Facts(cs), Masters(nmaster, |cs|);
      && mf == Total(fs[..k]) && sf == Total(fs[k..])
      && (k > 0 ==> mf > 0.0 && mr == msize - SumShares(msize, fs[..k], mf))
      && (k < |cs| ==> sf > 0.0 && sr == ssize - SumShares(ssize, fs[k..], sf))
  {
    mf, sf := SumFacts(cs, nmaster);
    mr, sr := RestOf(cs, nmaster, msize, ssize, mf, sf);
  }

  /** The first loop of getfacts. */
  method SumFacts(cs: seq<Win>, nmaster: nat) returns (mf: real, sf: real)
    requires Positive(Facts(cs))
    ensures var fs, k := Facts(cs), Masters(nmaster, |cs|);
      mf == Total(fs[..k]) && sf == Total(fs[k..]) && (k > 0 ==> mf > 0.0) && (k < |cs| ==> sf > 0.0)
  {
    ghost var fs, k := Facts(cs), Masters(nmaster, |cs|);
    mf, sf := 0.0, 0.0;
    for n := 0 to |cs|
      invariant mf == Total(fs[..Masters(nmaster, n)])
      invariant sf == if n <= nmaster then 0.0 else Total(fs[k..n])
    {
      if n < nmaster {
        mf := mf + cs[n].cfact;
        assert fs[..n + 1][..n] == fs[..n];
      } else {
        sf := sf + cs[n].cfact;
        assert fs[k..n + 1][..n - k] == fs[k..n];
      }
    }
    TotalPositive(fs[..k]);
    TotalPositive(fs[k..]);
    assert fs[k..|cs|] == fs[k..];
  }

  /** The second loop of getfacts. */
  method RestOf(cs: seq<Win>, nmaster: nat, msize: int, ssize: int, mf: real, sf: real) returns (mr: int, sr: int)
    requires (|cs| > 0 && nmaster > 0 ==> mf > 0.0) && (nmaster < |cs| ==> sf > 0.0)
    ensures var fs, k := Facts(cs), Masters(nmaster, |cs|);
      && (k > 0 ==> mr == msize - SumShares(msize, fs[..k], mf))
      && (k < |cs| ==> sr == ssize - SumShares(ssize, fs[k..], sf))
  {
    hide Trunc, Part;
    ghost var fs, k := Facts(cs), Masters(nmaster, |cs|);
    var mtotal, stotal := 0, 0;
    for n := 0 to |cs|
      invariant k > 0 ==> mtotal == SumShares(msize, fs[..Masters(nmaster, n)], mf)
      invariant k < |cs| ==> stotal == if n <= nmaster then 0 else SumShares(ssize, fs[k..n], sf)
    {
      if n < nmaster {
        mtotal := Trunc(mtotal as real + Part(msize, cs[n].cfact, mf));
        assert fs[..n + 1][..n] == fs[..n];
      } else {
        stotal := Trunc(stotal as real + Part(ssize, cs[n].cfact, sf));
        assert fs[k..n + 1][..n - k] == fs[k..n];
      }
    }
    assert fs[k..|cs|] == fs[k..];
    mr, sr := msize - mtotal, ssize - stotal;
  }

  /** The length that tile asks for: the exact share and the pixel of the rest, without the borders. */
  function Cut(size: int, f: real, total: real, bonus: int, bw: nat): int
    requires total != 0.0
  {
    Trunc(Part(size, f, total) + bonus as real - (2 * bw) as real)
  }

  lemma CutIs(size: int, fs: seq<real>, i: nat, bw: nat)
    requires Positive(fs) && i < |fs| && size >= 0 && Total(fs) > 0.0 && Piece(size, fs, i) >= 2 * bw
    ensures Cut(size, fs[i], Total(fs), if Below(i, size - SumShares(size, fs, Total(fs))) then 1 else 0, bw) ==
      Piece(size, fs, i) - 2 * bw
  {
    hide Part;
    Parts(size, 0.0, fs[i], Total(fs));
  }

  /** tile */
  method Tile(a: Area, nmaster: nat, mfact: real, cs: seq<Win>)
    requires Distinct(cs) && Positive(Facts(cs))
    modifies cs
    ensures Roomy(a, nmaster, |cs|) && TileSized(a, nmaster, mfact, cs) ==>
      forall i | 0 <= i < |cs| :: cs[i].Outer() == TileCell(a, nmaster, mfact, Facts(cs), i)
  {
    hide Part, Slot, SumShares, Fits, Sized;
    var n := |cs|;
    if n == 0 {
      return;
    }
    var mx, my := a.wx + a.ov, a.wy + a.oh;
    var sx := mx;
    var mh := Height(a, Masters(nmaster, n));
    var sh := Height(a, n - nmaster);
    var mw := a.ww - 2 * a.ov;
    var sw := mw;
    if nmaster > 0 && n > nmaster {
      sw := Trunc((mw - a.iv) as real * (1.0 - mfact));
      mw := mw - a.iv - sw;
      sx := mx + mw + a.iv;
    }
    var mf, sf, mrest, srest := GetFacts(cs, nmaster, mh, sh);
    ghost var p := PlanOf(a, nmaster, mfact, n);
    assert p == Plan(mx, sx, my, mw, sw, mh, sh);
    ghost var good := Roomy(a, nmaster, n) && TileSized(a, nmaster, mfact, cs);
    if good {
      forall i | 0 <= i < n ensures SlotFits(a, p, cs, Masters(nmaster, n), i) {
        TileFits(a, nmaster, mfact, cs, i);
      }
    }
    PlaceTiles(a, Plan(mx, sx, my, mw, sw, mh, sh), nmaster, cs, mf, sf, mrest, srest, good);
  }

  /** Slot i is one that resize takes as it is, in a column of a possible length. */
  predicate SlotFits(a: Area, p: Plan, cs: seq<Win>, k: nat, i: nat)
    requires Positive(Facts(cs)) && i < |cs| && k <= |cs|
  {
    && Fits(a, Slot(p, Facts(cs), k, a.ih, i), cs[i].bw) && Slot(p, Facts(cs), k, a.ih, i).h >= 2 * cs[i].bw
    && (if i < k then p.mh >= 0 else p.sh >= 0)
  }

  lemma FactAt(cs: seq<Win>, i: nat)
    requires i < |cs|
    ensures Facts(cs)[i] == cs[i].cfact
  {
  }

  lemma SlotIs(p: Plan, fs: seq<real>, k: nat, gap: nat, i: nat)
    requires Positive(fs) && i < |fs| && k <= |fs|
    ensures i < k ==> Slot(p, fs, k, gap, i) == ColumnCell(p.mx, p.y, p.mw, p.mh, fs[..k], gap, i)
    ensures i >= k ==> Slot(p, fs, k, gap, i) == ColumnCell(p.sx, p.y, p.sw, p.sh, fs[k..], gap, i - k)
  {
  }

  /** The loop of tile. */
  method PlaceTiles(a: Area, p: Plan, nmaster: nat, cs: seq<Win>, mf: real, sf: real, mrest: int, srest: int,
        ghost good: bool)
    requires Distinct(cs) && Positive(Facts(cs))
    requires var fs, k := Facts(cs), Masters(nmaster, |cs|);
      && mf == Total(fs[..k]) && sf == Total(fs[k..])
      && (k > 0 ==> mf > 0.0 && mrest == p.mh - SumShares(p.mh, fs[..k], mf))
      && (k < |cs| ==> sf > 0.0 && srest == p.sh - SumShares(p.sh, fs[k..], sf))
    requires good ==> forall i | 0 <= i < |cs| :: SlotFits(a, p, cs, Masters(nmaster, |cs|), i)
    modifies cs
    ensures good ==> forall i | 0 <= i < |cs| :: cs[i].Outer() == Slot(p, Facts(cs), Masters(nmaster, |cs|), a.ih, i)
  {
    hide Part, Trunc, Offset, Piece, SumShares, Below, Cut, Limited, Fits, Max, ColumnCell,
      Slot, Facts, Total;
    var my, sy := p.y, p.y;
    ghost var n, k := |cs|, Masters(nmaster, |cs|);
    ghost var mfs, sfs := Facts(cs)[..k], Facts(cs)[k..];
    OffsetStarts(p.mh, mfs, a.ih);
    OffsetStarts(p.sh, sfs, a.ih);
    for i := 0 to |cs|
      invariant good ==> my == p.y + Offset(p.mh, mfs, a.ih, if i < k then i else k)
      invariant good ==> sy == p.y + Offset(p.sh, sfs, a.ih, if i <= k then 0 else i - k)
      invariant good ==> forall j | 0 <= j < i :: cs[j].Outer() == Slot(p, Facts(cs), k, a.ih, j)
    {
      var c := cs[i];
      assert good ==> SlotFits(a, p, cs, k, i);
      FactAt(cs, i);
      SlotIs(p, Facts(cs), k, a.ih, i);
      if i < nmaster {
        c.Resize(a, p.mx, my, p.mw - 2 * c.bw, Cut(p.mh, c.cfact, mf, if Below(i, mrest) then 1 else 0, c.bw));
        if good {
          CellTaken(a, c, p.mx, p.y, p.mw, p.mh, mfs, i);
        }
        my := my + c.h + 2 * c.bw + a.ih;
      } else {
        c.Resize(a, p.sx, sy, p.sw - 2 * c.bw,
          Cut(p.sh, c.cfact, sf, if Below(i - nmaster, srest) then 1 else 0, c.bw));
        if good {
          CellTaken(a, c, p.sx, p.y, p.sw, p.sh, sfs, i - k);
        }
        sy := sy + c.h + 2 * c.bw + a.ih;
      }
    }
  }

  lemma OffsetStarts(size: int, fs: seq<real>, gap: nat)
    requires Positive(fs)
    ensures Offset(size, fs, gap, 0) == 0
  {
  }

  /** A window that was given its place in a column has it, and the next one starts a gap below. */
  lemma CellTaken(a: Area, c: Win, x: int, y: int, w: int, size: int, fs: seq<real>, i: nat)
    requires Positive(fs) && i < |fs| && size >= 0 && c.cfact == fs[i] && Total(fs) > 0.0
    requires Fits(a, ColumnCell(x, y, w, size, fs, a.ih, i), c.bw)
      && ColumnCell(x, y, w, size, fs, a.ih, i).h >= 2 * c.bw
    requires var rest := size - SumShares(size, fs, Total(fs));
      var h := Cut(size, c.cfact, Total(fs), if Below(i, rest) then 1 else 0, c.bw);
      var z := y + Offset(size, fs, a.ih, i);
      Fits(a, Cell(x, z, w, h + 2 * c.bw), c.bw) ==> c.Outer() == Cell(x, z, w, h + 2 * c.bw)
    ensures c.Outer() == ColumnCell(x, y, w, size, fs, a.ih, i)
    ensures y + Offset(size, fs, a.ih, i) + c.h + 2 * c.bw + a.ih == y + Offset(size, fs, a.ih, i + 1)
  {
    hide Cut, Below, SumShares, Fits;
    CutIs(size, fs, i, c.bw);
  }

  predicate BstackSized(a: Area, nmaster: nat, mfact: real, cs: seq<Win>)
    requires Positive(Facts(cs))
  {
    forall i | 0 <= i < |cs| :: Sized(a, BstackCell(a, nmaster, mfact, Facts(cs), i), cs[i].bw)
  }

  predicate RowFits(a: Area, p: Plan, cs: seq<Win>, k: nat, i: nat)
    requires Positive(Facts(cs)) && i < |cs| && k <= |cs|
  {
    && Fits(a, Turn(Slot(p, Facts(cs), k, a.iv, i)), cs[i].bw) && Slot(p, Facts(cs), k, a.iv, i).h >= 2 * cs[i].bw
    && (if i < k then p.mh >= 0 else p.sh >= 0)
  }

  lemma RowsFit(a: Area, nmaster: nat, mfact: real, cs: seq<Win>, i: nat)
    requires Positive(Facts(cs)) && i < |cs| && Roomy(Flip(a), nmaster, |cs|) && BstackSized(a, nmaster, mfact, cs)
    ensures RowFits(a, PlanOf(Flip(a), nmaster, mfact, |cs|), cs, Masters(nmaster, |cs|), i)
  {
    hide Piece, Trunc, Offset;
    assert forall j | 0 <= j < |cs| :: Sized(Flip(a), TileCell(Flip(a), nmaster, mfact, Facts(cs), j), cs[j].bw) by {
      assert forall j | 0 <= j < |cs| :: Sized(a, BstackCell(a, nmaster, mfact, Facts(cs), j), cs[j].bw);
    }
    TileFits(Flip(a), nmaster, mfact, cs, i);
  }

  /** bstack */
  method Bstack(a: Area, nmaster: nat, mfact: real, cs: seq<Win>)
    requires Distinct(cs) && Positive(Facts(cs))
    modifies cs
    ensures Roomy(Flip(a), nmaster, |cs|) && BstackSized(a, nmaster, mfact, cs) ==>
      forall i | 0 <= i < |cs| :: cs[i].Outer() == BstackCell(a, nmaster, mfact, Facts(cs), i)
  {
    hide Part, Slot, SumShares, Fits, Sized;
    var n := |cs|;
    if n == 0 {
      return;
    }
    var mx, my := a.wx + a.ov, a.wy + a.oh;
    var sy := my;
    var mh := a.wh - 2 * a.oh;
    var sh := mh;
    var mw := a.ww - 2 * a.ov - a.iv * (Masters(nmaster, n) - 1);
    var sw := a.ww - 2 * a.ov - a.iv * (n - nmaster - 1);
    if nmaster > 0 && n > nmaster {
      sh := Trunc((mh - a.ih) as real * (1.0 - mfact));
      mh := mh - a.ih - sh;
      sy := my + mh + a.ih;
    }
    var mf, sf, mrest, srest := GetFacts(cs, nmaster, mw, sw);
    ghost var p := PlanOf(Flip(a), nmaster, mfact, n);
    assert p == Plan(my, sy, mx, mh, sh, mw, sw);
    ghost var good := Roomy(Flip(a), nmaster, n) && BstackSized(a, nmaster, mfact, cs);
    if good {
      forall i | 0 <= i < n ensures RowFits(a, p, cs, Masters(nmaster, n), i) {
        RowsFit(a, nmaster, mfact, cs, i);
      }
    }
    PlaceRows(a, Plan(my, sy, mx, mh, sh, mw, sw), nmaster, cs, mf, sf, mrest, srest, good);
  }

  /** The loop of bstack. */
  method PlaceRows(a: Area, p: Plan, nmaster: nat, cs: seq<Win>, mf: real, sf: real, mrest: int, srest: int,
        ghost good: bool)
    requires Distinct(cs) && Positive(Facts(cs))
    requires var fs, k := Facts(cs), Masters(nmaster, |cs|);
      && mf == Total(fs[..k]) && sf == Total(fs[k..])
      && (k > 0 ==> mf > 0.0 && mrest == p.mh - SumShares(p.mh, fs[..k], mf))
      && (k < |cs| ==> sf > 0.0 && srest == p.sh - SumShares(p.sh, fs[k..], sf))
    requires good ==> forall i | 0 <= i < |cs| :: RowFits(a, p, cs, Masters(nmaster, |cs|), i)
    modifies cs
    ensures good ==>
      forall i | 0 <= i < |cs| :: cs[i].Outer() == Turn(Slot(p, Facts(cs), Masters(nmaster, |cs|), a.iv, i))
  {
    hide Part, Trunc, Offset, Piece, SumShares, Below, Cut, Limited, Fits, Max, ColumnCell, Turn,
      Slot, Facts, Total;
    var mx, sx := p.y, p.y;
    ghost var n, k := |cs|, Masters(nmaster, |cs|);
    ghost var mfs, sfs := Facts(cs)[..k], Facts(cs)[k..];
    OffsetStarts(p.mh, mfs, a.iv);
    OffsetStarts(p.sh, sfs, a.iv);
    for i := 0 to |cs|
      invariant good ==> mx == p.y + Offset(p.mh, mfs, a.iv, if i < k then i else k)
      invariant good ==> sx == p.y + Offset(p.sh, sfs, a.iv, if i <= k then 0 else i - k)
      invariant good ==> forall j | 0 <= j < i :: cs[j].Outer() == Turn(Slot(p, Facts(cs), k, a.iv, j))
    {
      var c := cs[i];
      assert good ==> RowFits(a, p, cs, k, i);
      FactAt(cs, i);
      SlotIs(p, Facts(cs), k, a.iv, i);
      if i < nmaster {
        c.Resize(a, mx, p.mx, Cut(p.mh, c.cfact, mf, if Below(i, mrest) then 1 else 0, c.bw), p.mw - 2 * c.bw);
        if good {
          RowTaken(a, c, p.mx, p.y, p.mw, p.mh, mfs, i);
        }
        mx := mx + c.w + 2 * c.bw + a.iv;
      } else {
        c.Resize(a, sx, p.sx, Cut(p.sh, c.cfact, sf, if Below(i - nmaster, srest) then 1 else 0, c.bw),
          p.sw - 2 * c.bw);
        if good {
          RowTaken(a, c, p.sx, p.y, p.sw, p.sh, sfs, i - k);
        }
        sx := sx + c.w + 2 * c.bw + a.iv;
      }
    }
  }

  lemma RowTaken(a: Area, c: Win, x: int, y: int, w: int, size: int, fs: seq<real>, i: nat)
    requires Positive(fs) && i < |fs| && size >= 0 && c.cfact == fs[i] && Total(fs) > 0.0
    requires Fits(a, Turn(ColumnCell(x, y, w, size, fs, a.iv, i)), c.bw)
      && ColumnCell(x, y, w, size, fs, a.iv, i).h >= 2 * c.bw
    requires var rest := size - SumShares(size, fs, Total(fs));
      var h := Cut(size, c.cfact, Total(fs), if Below(i, rest) then 1 else 0, c.bw);
      var z := y + Offset(size, fs, a.iv, i);
      Fits(a, Cell(z, x, h + 2 * c.bw, w), c.bw) ==> c.Outer() == Cell(z, x, h + 2 * c.bw, w)
    ensures c.Outer() == Turn(ColumnCell(x, y, w, size, fs, a.iv, i))
    ensures y + Offset(size, fs, a.iv, i) + c.w + 2 * c.bw + a.iv == y + Offset(size, fs, a.iv, i + 1)
  {
    hide Cut, Below, SumShares, Fits;
    CutIs(size, fs, i, c.bw);
  }
}
