/**
  * The re-wrapping loop of treflow (st.c) as a machine on values: source rows are read with a cursor
  * (oy, ox), target rows of width col are written with a cursor (|done|, |part|).
  */
module Rewrap {
  import opened Glyphs

  type Cells = seq<Glyph>

  // ---------------------------------------------------------------------------------------------
  // What a sequence of rows says: logical lines, the last of which may still be open.

  datatype Text = Text(closed: seq<Cells>, open: Cells)

  function Plain(g: Glyph): Glyph {
    g.(wrap := false)
  }

  function PlainAll(s: Cells): (r: Cells)
    ensures |r| == |s| && forall i | 0 <= i < |s| :: r[i] == Plain(s[i])
  {
    seq(|s|, i requires 0 <= i < |s| => Plain(s[i]))
  }

  /** A logical line without its trailing cells that were never set. */
  function Trim(s: Cells): (r: Cells)
    ensures r <= s
    ensures forall k | |r| <= k < |s| :: !s[k].isSet
    ensures r == [] || r[|r| - 1].isSet
  {
    if s == [] || s[|s| - 1].isSet then s else Trim(s[..|s| - 1])
  }

  function Write(t: Text, cells: Cells): Text {
    Text(t.closed, t.open + PlainAll(cells))
  }

  function Break(t: Text): Text {
    Text(t.closed + [Trim(t.open)], [])
  }

  /** A row ends its logical line unless its last cell carries the WRAP bit. */
  predicate Ends(row: Cells) {
    row == [] || !row[|row| - 1].wrap
  }

  function ReadText(rows: seq<Cells>): Text {
    if rows == [] then Text([], [])
    else
      var last := rows[|rows| - 1];
      var t := Write(ReadText(rows[..|rows| - 1]), last);
      if Ends(last) then Break(t) else t
  }

  /** The logical lines of a sequence of rows, without trailing unset cells. */
  function Lines(rows: seq<Cells>): seq<Cells> {
    LinesOf(ReadText(rows))
  }

  function LinesOf(t: Text): seq<Cells> {
    if t.open == [] then t.closed else t.closed + [Trim(t.open)]
  }

  // ---------------------------------------------------------------------------------------------
  // The machine.

  datatype Spot = Nowhere | At(y: nat, x: nat)

  datatype Flow = Flow(done: seq<Cells>, part: Cells, oy: nat, ox: nat, spot: Spot) {
    predicate Valid(src: seq<Cells>, col: nat) {
      && |part| < col
      && oy <= |src|
      && (oy == |src| ==> ox == 0)
      && (oy < |src| ==> ox == 0 || ox < |src[oy]|)
      && (ox > 0 ==> part == [])
    }

    function Count(): nat {
      |done| + if part == [] then 0 else 1
    }

    /** Target rows begun so far; the last one may be incomplete. */
    function Rows(): seq<Cells> {
      if part == [] then done else done + [part]
    }
  }

  const START := Flow([], [], 0, 0, Nowhere)

  function MarkWrap(row: Cells): (r: Cells)
    requires row != []
    ensures |r| == |row|
  {
    row[|row| - 1 := row[|row| - 1].(wrap := true)]
  }

  function ClearWrap(row: Cells): (r: Cells)
    requires row != []
    ensures |r| == |row|
  {
    row[|row| - 1 := row[|row| - 1].(wrap := false)]
  }

  /** "update cursor": the chunk about to be copied captures the cursor if it contains it. */
  function Capture(f: Flow, col: nat, cy: int, cx: nat): Spot
    requires |f.part| < col
  {
    if f.spot == Nowhere && f.oy == cy && f.ox <= cx && cx - f.ox < col - |f.part| then
      At(|f.done|, |f.part| + cx - f.ox)
    else f.spot
  }

  function Step(src: seq<Cells>, col: nat, cy: int, cx: nat, f: Flow): (g: Flow)
    requires f.Valid(src, col) && f.oy < |src|
    ensures g.Valid(src, col)
    ensures f.oy < g.oy || (f.oy == g.oy && f.ox < g.ox)
  {
    var row := src[f.oy];
    var space, rem := col - |f.part|, |row| - f.ox;
    var spot := Capture(f, col, cy, cx);
    if space > rem then
      var p := f.part + row[f.ox..];
      if Ends(row) then Flow(f.done + [p + Blanks(col - |p|, EMPTY)], [], f.oy + 1, 0, spot)
      else Flow(f.done, ClearWrap(p), f.oy + 1, 0, spot)
    else if space == rem then
      Flow(f.done + [f.part + row[f.ox..]], [], f.oy + 1, 0, spot)
    else
      Flow(f.done + [MarkWrap(f.part + row[f.ox..f.ox + space])], [], f.oy, f.ox + space, spot)
  }

  /** What one turn does to the row being written and to the cursors. */
  datatype Chunk = Chunk(cells: Cells, full: bool, ox: nat, next: bool)

  function ChunkOf(part: Cells, row: Cells, ox: nat, col: nat): Chunk
    requires |part| < col && ox <= |row|
  {
    var space, rem := col - |part|, |row| - ox;
    var p := part + row[ox..];
    if space > rem then
      if Ends(row) then Chunk(p + Blanks(col - |p|, EMPTY), true, 0, true)
      else if p == [] then Chunk(p, false, 0, true)
      else Chunk(ClearWrap(p), false, 0, true)
    else if space == rem then Chunk(p, true, 0, true)
    else Chunk(MarkWrap(part + row[ox..ox + space]), true, ox + space, false)
  }

  predicate Written(f: Flow, g: Flow, c: Chunk) {
    && g.done == (if c.full then f.done + [c.cells] else f.done)
    && g.part == (if c.full then [] else c.cells)
    && g.oy == (if c.next then f.oy + 1 else f.oy)
    && g.ox == c.ox
    && (!c.full ==> c.cells != [])
  }

  lemma StepIsChunk(src: seq<Cells>, col: nat, cy: int, cx: nat, f: Flow)
    requires f.Valid(src, col) && f.oy < |src|
    ensures Written(f, Step(src, col, cy, cx, f), ChunkOf(f.part, src[f.oy], f.ox, col))
    ensures Step(src, col, cy, cx, f).spot == Capture(f, col, cy, cx)
    ensures f.part == [] ==> Step(src, col, cy, cx, f).Count() == f.Count() + 1
    ensures f.part != [] ==> Step(src, col, cy, cx, f).Count() == f.Count()
    ensures Step(src, col, cy, cx, f).ox > 0 ==> Step(src, col, cy, cx, f).oy == f.oy
  {
  }

  /** The cursor cell is ahead of the source cursor exactly until it is captured. */
  predicate Waiting(f: Flow, cy: int, cx: nat) {
    f.spot == Nowhere <==> f.oy < cy || (f.oy == cy && f.ox <= cx)
  }

  lemma StepWaits(src: seq<Cells>, col: nat, cy: int, cx: nat, f: Flow)
    requires f.Valid(src, col) && f.oy < |src| && 0 <= cy < |src| && cx < |src[cy]|
    requires Waiting(f, cy, cx)
    ensures Waiting(Step(src, col, cy, cx, f), cy, cx)
  {
  }

  function Left(src: seq<Cells>, f: Flow): int {
    if f.oy < |src| then |src[f.oy]| - f.ox else 0
  }

  function Run(src: seq<Cells>, col: nat, cy: int, cx: nat, f: Flow): (g: Flow)
    requires f.Valid(src, col)
    ensures g.Valid(src, col) && g.oy == |src|
    decreases |src| - f.oy, Left(src, f)
  {
    if f.oy == |src| then f else Run(src, col, cy, cx, Step(src, col, cy, cx, f))
  }

  /** A row left incomplete after the last source row is filled up. */
  function Close(f: Flow, col: nat): seq<Cells>
    requires |f.part| < col
  {
    if f.part == [] then f.done else f.done + [f.part + Blanks(col - |f.part|, EMPTY)]
  }

  function Result(src: seq<Cells>, col: nat, cy: int, cx: nat): seq<Cells>
    requires col > 0
  {
    Close(Run(src, col, cy, cx, START), col)
  }

  // ---------------------------------------------------------------------------------------------
  // Text preservation.

  function Output(f: Flow): Text {
    Write(ReadText(f.done), f.part)
  }

  function Consumed(src: seq<Cells>, f: Flow): Text
    requires f.oy <= |src|
    requires f.ox == 0 || (f.oy < |src| && f.ox <= |src[f.oy]|)
  {
    var t := ReadText(src[..f.oy]);
    if f.oy == |src| then t else Write(t, src[f.oy][..f.ox])
  }

  lemma ReadTextSnoc(rows: seq<Cells>, row: Cells)
    ensures ReadText(rows + [row]) ==
            var t := Write(ReadText(rows), row);
            if Ends(row) then Break(t) else t
  {
    assert (rows + [row])[..|rows|] == rows;
  }

  lemma WriteCompose(t: Text, a: Cells, b: Cells)
    ensures Write(Write(t, a), b) == Write(t, a + b)
  {
    assert t.open + PlainAll(a) + PlainAll(b) == t.open + PlainAll(a + b);
  }

  lemma {:induction false} TrimBlanks(s: Cells, b: Cells)
    requires forall i | 0 <= i < |b| :: !b[i].isSet
    ensures Trim(s + b) == Trim(s)
  {
    if b == [] {
      assert s + b == s;
    } else {
      assert (s + b)[..|s + b| - 1] == s + b[..|b| - 1];
      TrimBlanks(s, b[..|b| - 1]);
    }
  }

  lemma WritePadded(t: Text, p: Cells, n: nat)
    ensures Break(Write(t, p + Blanks(n, EMPTY))) == Break(Write(t, p))
  {
    var b := PlainAll(Blanks(n, EMPTY));
    assert t.open + PlainAll(p + Blanks(n, EMPTY)) == t.open + PlainAll(p) + b;
    TrimBlanks(t.open + PlainAll(p), b);
  }

  /** The chunk copied by a step moves the same cells from the source text to the written text. */
  lemma ChunkMoves(src: seq<Cells>, f: Flow, here: Cells)
    requires f.oy < |src| && f.ox <= |src[f.oy]|
    requires Output(f) == Write(ReadText(src[..f.oy]), src[f.oy][..f.ox])
    ensures Write(ReadText(f.done), f.part + here) == Write(ReadText(src[..f.oy]), src[f.oy][..f.ox] + here)
  {
    WriteCompose(ReadText(f.done), f.part, here);
    WriteCompose(ReadText(src[..f.oy]), src[f.oy][..f.ox], here);
  }

  lemma WriteNothing(t: Text)
    ensures Write(t, []) == t
  {
    assert t.open + PlainAll([]) == t.open;
  }

  /** Consuming the rest of a row reads that row whole. */
  lemma RowConsumed(src: seq<Cells>, f: Flow, g: Flow)
    requires f.oy < |src| && f.ox <= |src[f.oy]|
    requires g.oy == f.oy + 1 && g.ox == 0
    ensures Consumed(src, g) ==
            var t := Write(ReadText(src[..f.oy]), src[f.oy][..f.ox] + src[f.oy][f.ox..]);
            if Ends(src[f.oy]) then Break(t) else t
  {
    var row := src[f.oy];
    assert row[..f.ox] + row[f.ox..] == row;
    assert src[..f.oy + 1] == src[..f.oy] + [row];
    ReadTextSnoc(src[..f.oy], row);
    WriteNothing(ReadText(src[..f.oy + 1]));
    if g.oy < |src| { assert src[g.oy][..0] == []; }
  }

  /** A turn that finishes the source row keeps the text if what it writes reads like the whole row. */
  lemma RowFinished(src: seq<Cells>, f: Flow, g: Flow)
    requires f.oy < |src| && f.ox <= |src[f.oy]|
    requires Output(f) == Write(ReadText(src[..f.oy]), src[f.oy][..f.ox])
    requires g.oy == f.oy + 1 && g.ox == 0
    requires Output(g) ==
             var t := Write(ReadText(f.done), f.part + src[f.oy][f.ox..]);
             if Ends(src[f.oy]) then Break(t) else t
    ensures Output(g) == Consumed(src, g)
  {
    hide ReadText, Write, Break, Consumed;
    ChunkMoves(src, f, src[f.oy][f.ox..]);
    RowConsumed(src, f, g);
  }

  lemma StepKeepsText(src: seq<Cells>, col: nat, cy: int, cx: nat, f: Flow)
    requires f.Valid(src, col) && f.oy < |src|
    requires Output(f) == Consumed(src, f)
    ensures Output(Step(src, col, cy, cx, f)) == Consumed(src, Step(src, col, cy, cx, f))
  {
    var space, rem := col - |f.part|, |src[f.oy]| - f.ox;
    if space > rem {
      StepShort(src, col, cy, cx, f);
    } else if space == rem {
      StepExact(src, col, cy, cx, f);
    } else {
      StepSplit(src, col, cy, cx, f);
    }
  }

  lemma StepShort(src: seq<Cells>, col: nat, cy: int, cx: nat, f: Flow)
    requires f.Valid(src, col) && f.oy < |src| && col - |f.part| > |src[f.oy]| - f.ox
    requires Output(f) == Consumed(src, f)
    ensures Output(Step(src, col, cy, cx, f)) == Consumed(src, Step(src, col, cy, cx, f))
  {
    hide ReadText, Trim;
    var row := src[f.oy];
    var g := Step(src, col, cy, cx, f);
    var p := f.part + row[f.ox..];
    if Ends(row) {
      PaddedRow(ReadText(f.done), f.done, p, col - |p|);
      WriteNothing(ReadText(g.done));
    } else {
      assert PlainAll(ClearWrap(p)) == PlainAll(p);
    }
    RowFinished(src, f, g);
  }

  /** A row filled up with blanks ends its line and reads like the cells before the blanks. */
  lemma PaddedRow(t: Text, rows: seq<Cells>, p: Cells, n: nat)
    requires t == ReadText(rows) && n > 0
    ensures ReadText(rows + [p + Blanks(n, EMPTY)]) == Break(Write(t, p))
  {
    var q := p + Blanks(n, EMPTY);
    assert q[|q| - 1] == EMPTY;
    WritePadded(t, p, n);
    ReadTextSnoc(rows, q);
  }

  /** The turn in which the rest of the source row fills the row being written. */
  lemma ExactStep(src: seq<Cells>, col: nat, cy: int, cx: nat, f: Flow, p: Cells)
    requires f.Valid(src, col) && f.oy < |src| && col - |f.part| == |src[f.oy]| - f.ox
    requires p == f.part + src[f.oy][f.ox..]
    ensures var g := Step(src, col, cy, cx, f); g.done == f.done + [p] && g.part == [] && g.oy == f.oy + 1 && g.ox == 0
    ensures Ends(p) <==> Ends(src[f.oy])
  {
    hide Capture;
    var row := src[f.oy];
    assert row[f.ox..][|row| - f.ox - 1] == row[|row| - 1];
  }

  /** The finished row reads like its cells, with nothing behind it. */
  lemma RowWritten(f: Flow, g: Flow, p: Cells)
    requires g.done == f.done + [p] && g.part == []
    ensures Output(g) == var t := Write(ReadText(f.done), p); if Ends(p) then Break(t) else t
  {
    hide ReadText, Write, Break, Ends;
    ReadTextSnoc(f.done, p);
    WriteNothing(ReadText(g.done));
  }

  lemma StepExact(src: seq<Cells>, col: nat, cy: int, cx: nat, f: Flow)
    requires f.Valid(src, col) && f.oy < |src| && col - |f.part| == |src[f.oy]| - f.ox
    requires Output(f) == Consumed(src, f)
    ensures Output(Step(src, col, cy, cx, f)) == Consumed(src, Step(src, col, cy, cx, f))
  {
    var g := Step(src, col, cy, cx, f);
    var p := f.part + src[f.oy][f.ox..];
    ExactStep(src, col, cy, cx, f, p);
    RowWritten(f, g, p);
    assert Output(f) == Write(ReadText(src[..f.oy]), src[f.oy][..f.ox]);
    hide Step, Ends, Output, Consumed, ReadText, Write, Break;
    RowFinished(src, f, g);
  }

  /** A row that is marked as going on reads like its cells, and leaves the line open. */
  lemma MarkedRow(rows: seq<Cells>, row: Cells)
    requires row != []
    ensures ReadText(rows + [MarkWrap(row)]) == Write(ReadText(rows), row)
  {
    assert PlainAll(MarkWrap(row)) == PlainAll(row);
    ReadTextSnoc(rows, MarkWrap(row));
  }

  lemma StepSplit(src: seq<Cells>, col: nat, cy: int, cx: nat, f: Flow)
    requires f.Valid(src, col) && f.oy < |src| && col - |f.part| < |src[f.oy]| - f.ox
    requires Output(f) == Consumed(src, f)
    ensures Output(Step(src, col, cy, cx, f)) == Consumed(src, Step(src, col, cy, cx, f))
  {
    var row := src[f.oy];
    var g := Step(src, col, cy, cx, f);
    var here := row[f.ox..g.ox];
    var p := f.part + here;
    hide ReadText;
    ChunkMoves(src, f, here);
    assert row[..f.ox] + here == row[..g.ox];
    assert g.done == f.done + [MarkWrap(p)] && g.part == [] && g.oy == f.oy;
    MarkedRow(f.done, p);
    WriteNothing(ReadText(g.done));
  }

  lemma {:induction false} RunKeepsText(src: seq<Cells>, col: nat, cy: int, cx: nat, f: Flow)
    requires f.Valid(src, col)
    requires Output(f) == Consumed(src, f)
    ensures Output(Run(src, col, cy, cx, f)) == ReadText(src)
    decreases |src| - f.oy, Left(src, f)
  {
    if f.oy == |src| {
      assert src[..|src|] == src;
    } else {
      StepKeepsText(src, col, cy, cx, f);
      RunKeepsText(src, col, cy, cx, Step(src, col, cy, cx, f));
    }
  }

  /** The main law of reflow: for every list of source rows and every width the logical lines survive. */
  lemma ReflowPreservesText(src: seq<Cells>, col: nat, cy: int, cx: nat)
    requires col > 0
    ensures Lines(Result(src, col, cy, cx)) == Lines(src)
  {
    assert Output(START) == Consumed(src, START) by {
      assert src[..0] == [];
      if |src| > 0 { assert src[0][..0] == []; }
    }
    RunKeepsText(src, col, cy, cx, START);
    CloseKeepsLines(Run(src, col, cy, cx, START), col);
  }

  lemma CloseKeepsLines(f: Flow, col: nat)
    requires |f.part| < col
    ensures Lines(Close(f, col)) == LinesOf(Output(f))
  {
    if f.part == [] {
      WriteNothing(ReadText(f.done));
    } else {
      PaddedRow(ReadText(f.done), f.done, f.part, col - |f.part|);
      assert Output(f).open != [];
    }
  }

  // ---------------------------------------------------------------------------------------------
  // Shape of the target rows.

  predicate Width(rows: seq<Cells>, col: nat) {
    forall i | 0 <= i < |rows| :: |rows[i]| == col
  }

  /** The WRAP bit sits on no cell but the last one of the row. */
  predicate CleanRow(row: Cells) {
    forall x | 0 <= x < |row| - 1 :: !row[x].wrap
  }

  predicate Clean(rows: seq<Cells>) {
    forall i | 0 <= i < |rows| :: CleanRow(rows[i])
  }

  predicate NoWrap(row: Cells) {
    forall x | 0 <= x < |row| :: !row[x].wrap
  }

  lemma {:induction false} RunShape(src: seq<Cells>, col: nat, cy: int, cx: nat, f: Flow)
    requires f.Valid(src, col) && Width(f.done, col)
    ensures Width(Run(src, col, cy, cx, f).done, col)
    decreases |src| - f.oy, Left(src, f)
  {
    if f.oy < |src| {
      RunShape(src, col, cy, cx, Step(src, col, cy, cx, f));
    }
  }

  lemma {:induction false} RunClean(src: seq<Cells>, col: nat, cy: int, cx: nat, f: Flow)
    requires f.Valid(src, col) && Clean(src) && Clean(f.done) && NoWrap(f.part)
    ensures Clean(Run(src, col, cy, cx, f).done) && NoWrap(Run(src, col, cy, cx, f).part)
    decreases |src| - f.oy, Left(src, f)
  {
    if f.oy < |src| {
      StepClean(src, col, cy, cx, f);
      RunClean(src, col, cy, cx, Step(src, col, cy, cx, f));
    }
  }

  lemma StepClean(src: seq<Cells>, col: nat, cy: int, cx: nat, f: Flow)
    requires f.Valid(src, col) && f.oy < |src| && Clean(src) && Clean(f.done) && NoWrap(f.part)
    ensures Clean(Step(src, col, cy, cx, f).done) && NoWrap(Step(src, col, cy, cx, f).part)
  {
    var row := src[f.oy];
    assert CleanRow(row);
    var g := Step(src, col, cy, cx, f);
    if |g.done| > |f.done| {
      assert CleanRow(g.done[|f.done|]);
    }
  }

  lemma ReflowShape(src: seq<Cells>, col: nat, cy: int, cx: nat)
    requires col > 0
    ensures Width(Result(src, col, cy, cx), col)
    ensures Clean(src) ==> Clean(Result(src, col, cy, cx))
  {
    RunShape(src, col, cy, cx, START);
    if Clean(src) {
      RunClean(src, col, cy, cx, START);
      var f := Run(src, col, cy, cx, START);
      assert f.part != [] ==> CleanRow(f.part + Blanks(col - |f.part|, EMPTY));
    }
  }

  // ---------------------------------------------------------------------------------------------
  // Capacity: `per` target rows suffice for each source row that fits in per * col cells.

  predicate Fits(src: seq<Cells>, col: nat, per: nat) {
    forall i | 0 <= i < |src| :: |src[i]| <= per * col
  }

  /** Rows begun so far: at most `per` for each source row consumed and k for the one in progress. */
  ghost predicate Budget(src: seq<Cells>, col: nat, per: nat, f: Flow, k: nat) {
    && k <= per
    && f.Count() <= per * f.oy + k
    && (f.ox == 0 ==> k == 0)
    && (f.oy < |src| ==> |src[f.oy]| - f.ox <= (per - k) * col)
  }

  lemma MulStep(a: int, b: int)
    ensures a * (b + 1) == a * b + a
    ensures (b + 1) * a == b * a + a
    ensures (b - 1) * a == b * a - a
  {
  }

  lemma {:induction false} RunCapacity(src: seq<Cells>, col: nat, cy: int, cx: nat, per: nat, f: Flow, k: nat)
    requires f.Valid(src, col) && per > 0 && Fits(src, col, per) && Budget(src, col, per, f, k)
    ensures f.Count() <= Run(src, col, cy, cx, f).Count() <= per * |src|
    decreases |src| - f.oy, Left(src, f)
  {
    if f.oy < |src| {
      var k' := StepCapacity(src, col, cy, cx, per, f, k);
      RunCapacity(src, col, cy, cx, per, Step(src, col, cy, cx, f), k');
    }
  }

  lemma StepCapacity(src: seq<Cells>, col: nat, cy: int, cx: nat, per: nat, f: Flow, k: nat) returns (k': nat)
    requires f.Valid(src, col) && f.oy < |src| && per > 0 && Fits(src, col, per) && Budget(src, col, per, f, k)
    ensures Budget(src, col, per, Step(src, col, cy, cx, f), k')
    ensures f.Count() <= Step(src, col, cy, cx, f).Count()
  {
    var g := Step(src, col, cy, cx, f);
    MulStep(per, f.oy);
    MulStep(col, per - k);
    if g.ox == 0 {
      k' := 0;
      assert k == per ==> (per - k) * col == 0;
      assert (per - 0) * col == per * col;
    } else if f.part == [] {
      k' := k + 1;
      assert (per - k') * col == (per - k) * col - col;
      assert k == per ==> (per - k) * col == 0;
    } else {
      k' := k;
    }
  }

  /**
    * treflow allocates per * (number of source rows) row pointers, with per = 1 when the width does not
    * shrink and per = ceil(old width / new width) otherwise. The loop never begins more rows.
    */
  lemma ReflowCapacity(src: seq<Cells>, col: nat, cy: int, cx: nat, per: nat)
    requires col > 0 && per > 0 && Fits(src, col, per)
    ensures |Result(src, col, cy, cx)| <= per * |src|
  {
    assert |src| > 0 ==> |src[0]| - 0 <= (per - 0) * col;
    RunCapacity(src, col, cy, cx, per, START, 0);
  }

  /** A row is only begun while the run still has rows to write. */
  lemma RowsLeft(src: seq<Cells>, col: nat, cy: int, cx: nat, per: nat, f: Flow, k: nat)
    requires f.Valid(src, col) && f.oy < |src| && per > 0 && Fits(src, col, per) && Budget(src, col, per, f, k)
    ensures f.part == [] ==> f.Count() < per * |src|
  {
    var k' := StepCapacity(src, col, cy, cx, per, f, k);
    RunCapacity(src, col, cy, cx, per, Step(src, col, cy, cx, f), k');
    StepIsChunk(src, col, cy, cx, f);
  }

  // ---------------------------------------------------------------------------------------------
  // The cursor.

  /** All the text in front of cell x of row y. */
  function Before(rows: seq<Cells>, y: nat, x: nat): Text
    requires y < |rows| && x <= |rows[y]|
  {
    Write(ReadText(rows[..y]), rows[y][..x])
  }

  /** Cell (y, x) of the target is cell (cy, cx) of the source: same content, same text before it. */
  ghost predicate SameCell(rows: seq<Cells>, y: nat, x: nat, src: seq<Cells>, cy: nat, cx: nat) {
    && y < |rows| && x < |rows[y]| && cy < |src| && cx < |src[cy]|
    && Plain(rows[y][x]) == Plain(src[cy][cx])
    && Before(rows, y, x) == Before(src, cy, cx)
  }

  ghost predicate Tracked(src: seq<Cells>, col: nat, cy: int, cx: nat, f: Flow) {
    match f.spot
    case Nowhere => f.oy < cy || (f.oy == cy && f.ox <= cx)
    case At(y, x) => 0 <= cy && SameCell(f.Rows(), y, x, src, cy, cx)
  }

  lemma StepCaptures(src: seq<Cells>, col: nat, cy: int, cx: nat, f: Flow)
    requires f.Valid(src, col) && f.oy < |src| && 0 <= cy < |src| && cx < |src[cy]|
    requires Output(f) == Consumed(src, f)
    requires Tracked(src, col, cy, cx, f)
    ensures Tracked(src, col, cy, cx, Step(src, col, cy, cx, f))
  {
    var g := Step(src, col, cy, cx, f);
    if f.spot.At? {
      StepKeepsCell(src, col, cy, cx, f);
    } else if g.spot.At? {
      StepCapturesNow(src, col, cy, cx, f);
    }
  }

  lemma StepCapturesNow(src: seq<Cells>, col: nat, cy: int, cx: nat, f: Flow)
    requires f.Valid(src, col) && f.oy < |src| && 0 <= cy < |src| && cx < |src[cy]|
    requires Output(f) == Consumed(src, f)
    requires f.spot == Nowhere && Capture(f, col, cy, cx).At?
    ensures var g := Step(src, col, cy, cx, f);
            g.spot.At? && SameCell(g.Rows(), g.spot.y, g.spot.x, src, cy, cx)
  {
    var g := Step(src, col, cy, cx, f);
    var row, here, n := src[cy], src[cy][f.ox..cx], |f.done|;
    ChunkMoves(src, f, here);
    assert row[..f.ox] + here == row[..cx];
    var rows := g.Rows();
    CapturedRow(src, col, cy, cx, f);
    assert PlainAll(rows[n][..g.spot.x]) == PlainAll(f.part + here);
  }

  lemma CapturedRow(src: seq<Cells>, col: nat, cy: int, cx: nat, f: Flow)
    requires f.Valid(src, col) && f.oy < |src| && 0 <= cy < |src| && cx < |src[cy]|
    requires f.spot == Nowhere && Capture(f, col, cy, cx).At?
    ensures var g := Step(src, col, cy, cx, f);
            var rows, n := g.Rows(), |f.done|;
            && g.spot == At(n, |f.part| + cx - f.ox)
            && |rows| > n && rows[..n] == f.done && |rows[n]| > g.spot.x
            && Plain(rows[n][g.spot.x]) == Plain(src[cy][cx])
            && forall i | 0 <= i < g.spot.x :: Plain(rows[n][i]) == Plain((f.part + src[cy][f.ox..cx])[i])
  {
  }

  /** A step only touches cells that no earlier capture can lie in, except for their WRAP bit. */
  lemma StepKeepsCell(src: seq<Cells>, col: nat, cy: int, cx: nat, f: Flow)
    requires f.Valid(src, col) && f.oy < |src| && f.spot.At? && 0 <= cy
    requires SameCell(f.Rows(), f.spot.y, f.spot.x, src, cy, cx)
    ensures SameCell(Step(src, col, cy, cx, f).Rows(), f.spot.y, f.spot.x, src, cy, cx)
  {
    var rows, rows' := f.Rows(), Step(src, col, cy, cx, f).Rows();
    var y, x := f.spot.y, f.spot.x;
    assert rows'[..y] == rows[..y];
    if y < |f.done| {
      assert rows'[y] == rows[y];
    } else {
      assert rows[y] == f.part;
      assert PlainAll(rows'[y][..x]) == PlainAll(rows[y][..x]);
    }
  }

  lemma {:induction false} RunCaptures(src: seq<Cells>, col: nat, cy: int, cx: nat, f: Flow)
    requires f.Valid(src, col) && 0 <= cy < |src| && cx < |src[cy]|
    requires Output(f) == Consumed(src, f)
    requires Tracked(src, col, cy, cx, f)
    ensures var g := Run(src, col, cy, cx, f);
            g.spot.At? && SameCell(g.Rows(), g.spot.y, g.spot.x, src, cy, cx)
    decreases |src| - f.oy, Left(src, f)
  {
    if f.oy < |src| {
      StepKeepsText(src, col, cy, cx, f);
      StepCaptures(src, col, cy, cx, f);
      RunCaptures(src, col, cy, cx, Step(src, col, cy, cx, f));
    }
  }

  /** Where the loop leaves the cursor. */
  function NewSpot(src: seq<Cells>, col: nat, cy: int, cx: nat): Spot
    requires col > 0
  {
    Run(src, col, cy, cx, START).spot
  }

  /** If the source holds the cursor cell, it is captured, and the cursor stays on that cell of the text. */
  lemma ReflowTracksCursor(src: seq<Cells>, col: nat, cy: int, cx: nat)
    requires col > 0 && 0 <= cy < |src| && cx < |src[cy]|
    ensures var s := NewSpot(src, col, cy, cx);
            s.At? && SameCell(Result(src, col, cy, cx), s.y, s.x, src, cy, cx)
  {
    assert Output(START) == Consumed(src, START) by {
      assert src[..0] == [];
      assert src[0][..0] == [];
    }
    RunCaptures(src, col, cy, cx, START);
    var f := Run(src, col, cy, cx, START);
    var rows, rows' := f.Rows(), Close(f, col);
    assert rows'[..f.spot.y] == rows[..f.spot.y];
    assert rows'[f.spot.y][..f.spot.x] == rows[f.spot.y][..f.spot.x];
  }

  lemma {:induction false} RunCapturesNothing(src: seq<Cells>, col: nat, cy: int, cx: nat, f: Flow)
    requires f.Valid(src, col) && !(0 <= cy < |src|) && f.spot == Nowhere
    ensures Run(src, col, cy, cx, f).spot == Nowhere
    decreases |src| - f.oy, Left(src, f)
  {
    if f.oy < |src| {
      RunCapturesNothing(src, col, cy, cx, Step(src, col, cy, cx, f));
    }
  }

  /** The cursor is captured exactly if its row is among the rows read. */
  lemma CapturedExactly(src: seq<Cells>, col: nat, cy: int, cx: nat)
    requires col > 0 && (0 <= cy < |src| ==> cx < |src[cy]|)
    ensures NewSpot(src, col, cy, cx).At? <==> 0 <= cy < |src|
  {
    if 0 <= cy < |src| {
      ReflowTracksCursor(src, col, cy, cx);
    } else {
      RunCapturesNothing(src, col, cy, cx, START);
    }
  }

  // ---------------------------------------------------------------------------------------------
  // Reading screen rows back. The loop reads a row up to tlinelen, and on the cursor's row at least up
  // to the cursor.

  function ReadLen(row: Cells, atLeast: nat): nat {
    var n := LineLen(row);
    if n < atLeast <= |row| then atLeast else n
  }

  function ReadRow(row: Cells, atLeast: nat): Cells {
    row[..ReadLen(row, atLeast)]
  }

  /** The rows as the loop reads them when the cursor is in column cx of row cy. */
  function ReadRows(rows: seq<Cells>, cy: int, cx: nat): (r: seq<Cells>)
    ensures |r| == |rows|
  {
    seq(|rows|, i requires 0 <= i < |rows| => ReadRow(rows[i], if i == cy then cx + 1 else 0))
  }

  /** Cutting a row down to cells followed only by unset, unwrapped ones does not change a finished line. */
  lemma CutKeepsLine(t: Text, row: Cells, n: nat)
    requires n <= |row| && forall k | n <= k < |row| :: !row[k].isSet
    ensures Break(Write(t, row[..n])) == Break(Write(t, row))
  {
    assert row[..n] + row[n..] == row;
    WriteCompose(t, row[..n], row[n..]);
    TrimBlanks(Write(t, row[..n]).open, PlainAll(row[n..]));
  }

  lemma ReadRowEnds(row: Cells, atLeast: nat)
    requires CleanRow(row)
    ensures Ends(ReadRow(row, atLeast)) <==> Ends(row)
    ensures !Ends(row) ==> ReadRow(row, atLeast) == row
  {
    if !Ends(row) {
      assert row[..|row|] == row;
      assert row[|row| - 1].Counts();
    }
  }

  lemma {:induction false} ReadRowsKeepText(rows: seq<Cells>, cy: int, cx: nat)
    requires Clean(rows)
    ensures ReadText(ReadRows(rows, cy, cx)) == ReadText(rows)
  {
    if rows != [] {
      var n := |rows| - 1;
      assert rows == rows[..n] + [rows[n]];
      assert ReadRows(rows, cy, cx) == ReadRows(rows[..n], cy, cx) + [ReadRows(rows, cy, cx)[n]];
      ReadRowsKeepText(rows[..n], cy, cx);
      assert CleanRow(rows[n]);
      var atLeast := if n == cy then cx + 1 else 0;
      ReadRowEnds(rows[n], atLeast);
      CutKeepsLine(ReadText(rows[..n]), rows[n], ReadLen(rows[n], atLeast));
      ReadTextSnoc(rows[..n], rows[n]);
      ReadTextSnoc(ReadRows(rows[..n], cy, cx), ReadRows(rows, cy, cx)[n]);
    }
  }

  /** One width change with the cursor anywhere, read as the code reads it. */
  function Reflow(rows: seq<Cells>, col: nat, cy: int, cx: nat): seq<Cells>
    requires col > 0
  {
    Result(ReadRows(rows, cy, cx), col, cy, cx)
  }

  datatype Resize = Resize(col: nat, cy: int, cx: nat)

  function ReflowAll(rows: seq<Cells>, changes: seq<Resize>): seq<Cells>
    requires forall c | c in changes :: c.col > 0
    decreases |changes|
  {
    if changes == [] then rows
    else ReflowAll(Reflow(rows, changes[0].col, changes[0].cy, changes[0].cx), changes[1..])
  }

  lemma OneReflow(rows: seq<Cells>, col: nat, cy: int, cx: nat)
    requires Clean(rows) && col > 0
    ensures Clean(Reflow(rows, col, cy, cx)) && Lines(Reflow(rows, col, cy, cx)) == Lines(rows)
  {
    var src := ReadRows(rows, cy, cx);
    assert Clean(src) by {
      forall i | 0 <= i < |rows| ensures CleanRow(src[i]) {
        assert CleanRow(rows[i]);
      }
    }
    ReadRowsKeepText(rows, cy, cx);
    ReflowPreservesText(src, col, cy, cx);
    ReflowShape(src, col, cy, cx);
  }

  /** Any sequence of width changes, with the cursor anywhere at each of them, keeps every logical line. */
  lemma {:induction false} ManyReflowsPreserveText(rows: seq<Cells>, changes: seq<Resize>)
    requires Clean(rows)
    requires forall c | c in changes :: c.col > 0
    ensures Clean(ReflowAll(rows, changes))
    ensures Lines(ReflowAll(rows, changes)) == Lines(rows)
    decreases |changes|
  {
    if changes != [] {
      var c := changes[0];
      OneReflow(rows, c.col, c.cy, c.cx);
      ManyReflowsPreserveText(Reflow(rows, c.col, c.cy, c.cx), changes[1..]);
    }
  }
}
