/**
  * Row buffers of st.c: clearing, measuring and copying cells in place, and the target rows that the
  * re-wrapping loop of treflow allocates and fills.
  */
module LineBuffer {
  import opened Glyphs
  import opened Strays
  import Rewrap

  type Row = array<Glyph>
  type Cells = seq<Glyph>

  predicate NoDup<T(==)>(s: seq<T>) {
    forall i, j | 0 <= i < j < |s| :: s[i] != s[j]
  }

  method ClearRow(r: Row, g: Glyph)
    modifies r
    ensures r[..] == Blanks(r.Length, g)
  {
    for j := 0 to r.Length
      invariant forall k | 0 <= k < j :: r[k] == g
    {
      r[j] := g;
    }
  }

  /** tlinelen */
  method TLineLen(r: Row) returns (n: nat)
    ensures n == LineLen(r[..])
  {
    var i: int := r.Length - 1;
    while i >= 0 && !r[i].Counts()
      invariant -1 <= i < r.Length
      invariant forall k | i < k < r.Length :: !r[k].Counts()
    {
      i := i - 1;
    }
    LineLenUnique(r[..], i + 1);
    return i + 1;
  }

  /** tiswrapped */
  method TIsWrapped(r: Row) returns (w: bool)
    ensures w == IsWrapped(r[..])
  {
    var n := TLineLen(r);
    return n > 0 && r[n - 1].wrap;
  }

  /** memcpy between two row buffers */
  method CopyCells(dst: Row, at: nat, src: Row, from: nat, n: nat)
    requires dst != src && at + n <= dst.Length && from + n <= src.Length
    modifies dst
    ensures dst[..] == old(dst[..at]) + src[from..from + n] + old(dst[at + n..])
  {
    forall k | 0 <= k < n {
      dst[at + k] := src[from + k];
    }
  }

  method FillBlank(dst: Row, at: nat)
    requires at <= dst.Length
    modifies dst
    ensures dst[..] == old(dst[..at]) + Blanks(dst.Length - at, EMPTY)
  {
    for j := at to dst.Length
      invariant dst[..at] == old(dst[..at])
      invariant forall k | at <= k < j :: dst[k] == EMPTY
    {
      dst[j] := EMPTY;
    }
  }

  /** memmove within a row buffer */
  method MoveCells(r: Row, to: nat, from: nat, n: nat)
    requires to + n <= r.Length && from + n <= r.Length
    modifies r
    ensures r[..] == old(r[..to]) + old(r[from..from + n]) + old(r[to + n..])
  {
    forall k | 0 <= k < n {
      r[to + k] := r[from + k];
    }
  }

  /** tclearregion within a row */
  method ClearCells(r: Row, from: nat, to: nat, g: Glyph)
    requires from <= to <= r.Length
    modifies r
    ensures r[..] == old(r[..from]) + Blanks(to - from, g) + old(r[to..])
  {
    for j := from to to
      invariant r[..from] == old(r[..from]) && r[to..] == old(r[to..])
      invariant forall k | from <= k < j :: r[k] == g
    {
      r[j] := g;
    }
  }

  /** tdeletechar: the cells from src on come to x, blank ones follow. */
  method DeleteInRow(r: Row, x: nat, src: nat, g: Glyph)
    requires x < src <= r.Length
    modifies r
    ensures r[..] == DeleteChars(old(r[..]), x, src - x, g)
  {
    ghost var was := r[..];
    var size := r.Length - src;
    MoveCells(r, x, src, size);
    assert r[..x + size] == was[..x] + was[src..];
    ClearCells(r, x + size, r.Length, g);
  }

  /** tinsertblank: the cells from x on move to dst, blank ones come before them. */
  method InsertInRow(r: Row, x: nat, dst: nat, g: Glyph)
    requires x < dst <= r.Length
    modifies r
    ensures r[..] == InsertBlanks(old(r[..]), x, dst - x, g)
  {
    ghost var was := r[..];
    var size := r.Length - dst;
    MoveCells(r, dst, x, size);
    assert r[..x] == was[..x] && r[dst..] == was[x..x + size];
    ClearCells(r, x, dst, g);
  }

  /** "get reflowed lines in buf": one chunk of `line` goes to the row being written. */
  method WriteChunk(dst: Row, nx: nat, line: Row, ox: nat, len: nat) returns (nx': nat, ox': nat, next: bool)
    requires dst != line && nx < dst.Length && ox <= len <= line.Length && (ox == len ==> ox == 0)
    modifies dst
    ensures var c := Rewrap.ChunkOf(old(dst[..nx]), line[..len], ox, dst.Length);
            && ox' == c.ox && next == c.next
            && (c.full ==> nx' == 0 && dst[..] == c.cells)
            && (!c.full ==> nx' == |c.cells| < dst.Length && dst[..nx'] == c.cells)
  {
    var col := dst.Length;
    if col - nx > len - ox {
      nx' := WriteEnd(dst, nx, line, ox, len);
      ox', next := 0, true;
    } else if col - nx == len - ox {
      CopyCells(dst, nx, line, ox, col - nx);
      assert dst[..] == old(dst[..nx]) + line[..len][ox..];
      nx', ox', next := 0, 0, true;
    } else {
      CopyCells(dst, nx, line, ox, col - nx);
      assert dst[..] == old(dst[..nx]) + line[..len][ox..ox + col - nx];
      ox', next := ox + col - nx, false;
      dst[col - 1] := dst[col - 1].(wrap := true);
      nx' := 0;
    }
  }

  /** The case of a source row that ends before the target row is full. */
  method WriteEnd(dst: Row, nx: nat, line: Row, ox: nat, len: nat) returns (nx': nat)
    requires dst != line && ox <= len <= line.Length && (ox == len ==> ox == 0) && len - ox < dst.Length - nx
    modifies dst
    ensures var c := Rewrap.ChunkOf(old(dst[..nx]), line[..len], ox, dst.Length);
            && (c.full ==> nx' == 0 && dst[..] == c.cells)
            && (!c.full ==> nx' == |c.cells| < dst.Length && dst[..nx'] == c.cells)
  {
    ghost var p := dst[..nx] + line[..len][ox..];
    CopyCells(dst, nx, line, ox, len - ox);
    nx' := nx + len - ox;
    assert dst[..nx'] == p;
    if len == 0 || !line[len - 1].wrap {
      FillBlank(dst, nx');
      nx' := 0;
    } else if nx' > 0 {
      dst[nx' - 1] := dst[nx' - 1].(wrap := false);
      assert dst[..nx'] == Rewrap.ClearWrap(p);
    }
  }

  // ---------------------------------------------------------------------------------------------
  // The buffer `buf` of treflow.

  /** The first f.Count() rows of buf hold what the machine has written in state f. */
  ghost predicate Holds(buf: array<Row>, cols: nat, f: Rewrap.Flow)
    reads buf, buf[..]
    ensures Holds(buf, cols, f) ==> |f.part| < cols && f.Count() <= buf.Length
  {
    && |f.part| < cols && f.Count() <= buf.Length
    && NoDup(buf[..f.Count()])
    && (forall i | 0 <= i < f.Count() :: buf[i].Length == cols)
    && (forall i | 0 <= i < |f.done| :: buf[i][..] == f.done[i])
    && (f.part != [] ==> buf[|f.done|][..|f.part|] == f.part)
  }

  /** The same with the row to be written next already allocated. */
  ghost predicate Begun(buf: array<Row>, cols: nat, f: Rewrap.Flow)
    reads buf, buf[..]
  {
    && |f.part| < cols && |f.done| < buf.Length
    && NoDup(buf[..|f.done| + 1])
    && (forall i | 0 <= i <= |f.done| :: buf[i].Length == cols)
    && (forall i | 0 <= i < |f.done| :: buf[i][..] == f.done[i])
    && buf[|f.done|][..|f.part|] == f.part
  }

  /** buf[++ny] = xmalloc(col) at the start of a target row */
  method BeginRow(buf: array<Row>, ghost f: Rewrap.Flow, cols: nat, nx: nat, ny: int) returns (ny': int)
    requires Holds(buf, cols, f) && nx == |f.part| && ny + 1 == f.Count()
    requires nx == 0 ==> f.Count() < buf.Length
    modifies buf
    ensures Begun(buf, cols, f) && ny' == |f.done|
    ensures buf[..f.Count()] == old(buf[..f.Count()])
    ensures nx == 0 ==> fresh(buf[ny'])
  {
    ny' := ny;
    if nx == 0 {
      ny' := ny + 1;
      buf[ny'] := new Glyph[cols];
    }
  }

  /** The loop body after the cursor update: a chunk of the source row goes to the target row. */
  method WriteStep(buf: array<Row>, ghost f: Rewrap.Flow, ghost g: Rewrap.Flow,
                   cols: nat, line: Row, len: nat, ox: nat, nx: nat, ny: nat)
    returns (nx': nat, ox': nat, next: bool)
    requires Begun(buf, cols, f) && nx == |f.part| && ny == |f.done|
    requires ox <= len <= line.Length && (ox == len ==> ox == 0)
    requires line !in buf[..|f.done| + 1]
    requires Rewrap.Written(f, g, Rewrap.ChunkOf(f.part, line[..len], ox, cols))
    modifies buf[ny]
    ensures ox' == g.ox && nx' == |g.part| && g.oy == (if next then f.oy + 1 else f.oy)
    ensures Holds(buf, cols, g) && ny + 1 == g.Count()
  {
    ghost var c := Rewrap.ChunkOf(f.part, line[..len], ox, cols);
    assert line != buf[ny] by { assert buf[ny] in buf[..ny + 1]; }
    nx', ox', next := WriteChunk(buf[ny], nx, line, ox, len);
    Wrote(buf, cols, f.done, c, g, nx');
  }

  lemma Wrote(buf: array<Row>, cols: nat, done: seq<Cells>, c: Rewrap.Chunk, g: Rewrap.Flow, nx: nat)
    requires |done| < buf.Length
    requires NoDup(buf[..|done| + 1])
    requires forall i | 0 <= i <= |done| :: buf[i].Length == cols
    requires forall i | 0 <= i < |done| :: buf[i][..] == done[i]
    requires c.full ==> nx == 0 && buf[|done|][..] == c.cells
    requires !c.full ==> nx == |c.cells| < cols && buf[|done|][..nx] == c.cells && c.cells != []
    requires 0 < cols && g.done == (if c.full then done + [c.cells] else done)
    requires g.part == (if c.full then [] else c.cells)
    ensures Holds(buf, cols, g)
  {
  }

  /** The first |done| rows of buf hold the given rows. */
  ghost predicate Full(buf: array<Row>, cols: nat, done: seq<Cells>)
    reads buf, buf[..]
  {
    && |done| <= buf.Length && NoDup(buf[..|done|])
    && forall i | 0 <= i < |done| :: buf[i].Length == cols && buf[i][..] == done[i]
  }

  /** "if (nx)": the last row is filled up. */
  method CloseRow(buf: array<Row>, ghost f: Rewrap.Flow, cols: nat, nx: nat, ny: int)
    requires Holds(buf, cols, f) && nx == |f.part| && ny + 1 == f.Count()
    modifies if nx > 0 then {buf[ny]} else {}
    ensures Full(buf, cols, Rewrap.Close(f, cols)) && ny + 1 == |Rewrap.Close(f, cols)|
  {
    if nx > 0 {
      FillBlank(buf[ny], nx);
    }
  }

  /** xrealloc of a row buffer: a new buffer with the old cells as far as they fit */
  method ReallocRow(r: Row, n: nat) returns (q: Row)
    ensures fresh(q) && q.Length == n
    ensures forall k | 0 <= k < n && k < r.Length :: q[k] == r[k]
  {
    q := new Glyph[n];
    forall k | 0 <= k < n && k < r.Length {
      q[k] := r[k];
    }
  }
}
