/**
  * WRAP bits in front of the last column: which rows the loop of treflow misreads, how many lines that costs,
  * and where such rows come from.
  */
module Strays {
  import opened Glyphs
  import opened Rewrap

  /** A finished row that is read only up to a cell with the WRAP bit. */
  predicate Stray(row: Cells, atLeast: nat) {
    Ends(row) && !Ends(ReadRow(row, atLeast))
  }

  function AtLeast(y: int, cy: int, cx: nat): nat {
    if y == cy then cx + 1 else 0
  }

  function Strays(rows: seq<Cells>, cy: int, cx: nat): nat {
    if rows == [] then 0
    else
      var n := |rows| - 1;
      Strays(rows[..n], cy, cx) + if Stray(rows[n], AtLeast(n, cy, cx)) then 1 else 0
  }

  lemma ReadRowsSnoc(rows: seq<Cells>, cy: int, cx: nat)
    requires rows != []
    ensures var n := |rows| - 1;
      ReadRows(rows, cy, cx) == ReadRows(rows[..n], cy, cx) + [ReadRow(rows[n], AtLeast(n, cy, cx))]
  {
  }

  /** What a row is read as: itself when it goes on, the same up to unset cells when it ends. */
  lemma RowAsRead(t: Text, row: Cells, atLeast: nat)
    ensures !Ends(row) ==> ReadRow(row, atLeast) == row
    ensures Break(Write(t, ReadRow(row, atLeast))) == Break(Write(t, row))
    ensures Stray(row, atLeast) ==> Write(t, ReadRow(row, atLeast)).open != []
  {
    if !Ends(row) {
      assert row[|row| - 1].Counts();
      assert row[..|row|] == row;
    }
    CutKeepsLine(t, row, ReadLen(row, atLeast));
  }

  /** Every stray row costs one finished line. */
  lemma {:induction false} StrayCount(rows: seq<Cells>, cy: int, cx: nat)
    ensures |ReadText(ReadRows(rows, cy, cx)).closed| + Strays(rows, cy, cx) == |ReadText(rows).closed|
    ensures Strays(rows, cy, cx) == 0 ==> ReadText(ReadRows(rows, cy, cx)) == ReadText(rows)
  {
    if rows != [] {
      var n := |rows| - 1;
      var r := ReadRow(rows[n], AtLeast(n, cy, cx));
      StrayCount(rows[..n], cy, cx);
      ReadRowsSnoc(rows, cy, cx);
      assert rows == rows[..n] + [rows[n]];
      ReadTextSnoc(rows[..n], rows[n]);
      ReadTextSnoc(ReadRows(rows[..n], cy, cx), r);
      RowAsRead(ReadText(rows[..n]), rows[n], AtLeast(n, cy, cx));
    }
  }

  /** The stray rows that are followed by another row. */
  function Joined(rows: seq<Cells>, cy: int, cx: nat): nat {
    if rows == [] then 0 else Strays(rows[..|rows| - 1], cy, cx)
  }

  /** Reading joins one line to the next for every stray row but the last row, and loses nothing otherwise. */
  lemma ReadingJoins(rows: seq<Cells>, cy: int, cx: nat)
    ensures |Lines(ReadRows(rows, cy, cx))| + Joined(rows, cy, cx) == |Lines(rows)|
    ensures Lines(ReadRows(rows, cy, cx)) == Lines(rows) <==> Joined(rows, cy, cx) == 0
  {
    if rows != [] {
      var n := |rows| - 1;
      var t, u := ReadText(rows[..n]), ReadText(ReadRows(rows[..n], cy, cx));
      var r := ReadRow(rows[n], AtLeast(n, cy, cx));
      StrayCount(rows[..n], cy, cx);
      ReadRowsSnoc(rows, cy, cx);
      assert rows == rows[..n] + [rows[n]];
      ReadTextSnoc(rows[..n], rows[n]);
      ReadTextSnoc(ReadRows(rows[..n], cy, cx), r);
      RowAsRead(t, rows[n], AtLeast(n, cy, cx));
      RowAsRead(u, rows[n], AtLeast(n, cy, cx));
      LastRow(t, rows[n]);
      LastRow(u, r);
    }
  }

  /** The lines of a text and one more row. */
  lemma LastRow(t: Text, row: Cells)
    ensures var u := Write(t, row);
      LinesOf(if Ends(row) then Break(u) else u) == Break(u).closed
  {
  }

  /**
    * A width change keeps the logical lines exactly if no row but the last is stray where the cursor is; every
    * stray row joins its line to the next one.
    */
  lemma ReflowJoins(rows: seq<Cells>, col: nat, cy: int, cx: nat)
    requires col > 0
    ensures |Lines(Reflow(rows, col, cy, cx))| + Joined(rows, cy, cx) == |Lines(rows)|
    ensures Lines(Reflow(rows, col, cy, cx)) == Lines(rows) <==> Joined(rows, cy, cx) == 0
  {
    hide Joined, Result, ReadRows, Lines;
    ReadingJoins(rows, cy, cx);
    ReflowPreservesText(ReadRows(rows, cy, cx), col, cy, cx);
  }

  // ---------------------------------------------------------------------------------------------
  // Deleting and inserting characters.

  function Least(a: int, b: int): int {
    if a < b then a else b
  }

  /** tdeletechar on the cursor's row */
  function DeleteChars(row: Cells, x: nat, n: int, blank: Glyph): (r: Cells)
    requires x < |row|
    ensures |r| == |row|
  {
    if n <= 0 then row
    else
      var k := Least(n, |row| - x);
      row[..x] + row[x + k..] + Blanks(k, blank)
  }

  /** tinsertblank on the cursor's row */
  function InsertBlanks(row: Cells, x: nat, n: int, blank: Glyph): (r: Cells)
    requires x < |row|
    ensures |r| == |row|
  {
    if n <= 0 then row
    else
      var k := Least(n, |row| - x);
      row[..x] + Blanks(k, blank) + row[x..|row| - k]
  }

  /** Only as many characters as there are up to the end of the row count. */
  lemma DeletedAlike(row: Cells, x: nat, n: int, blank: Glyph)
    requires x < |row| && n > 0
    ensures var k := Least(n, |row| - x);
      && DeleteChars(row, x, n, blank) == DeleteChars(row, x, k, blank)
      && InsertBlanks(row, x, n, blank) == InsertBlanks(row, x, k, blank)
  {
  }

  /** Deletion moves the last cell of a wrapped row away from the last column. */
  predicate Dislodges(row: Cells, x: nat, n: int) {
    n > 0 && x + n < |row| && row[|row| - 1].wrap
  }

  /** That is the only way in which a row of clean cells gets a WRAP bit in front of its last column. */
  lemma DeletionKeepsClean(row: Cells, x: nat, n: int, blank: Glyph)
    requires x < |row| && CleanRow(row) && !blank.wrap
    ensures CleanRow(DeleteChars(row, x, n, blank)) <==> !Dislodges(row, x, n)
  {
    var r := DeleteChars(row, x, n, blank);
    if Dislodges(row, x, n) {
      assert r[|row| - 1 - n] == row[|row| - 1];
    }
  }

  lemma InsertionKeepsClean(row: Cells, x: nat, n: int, blank: Glyph)
    requires x < |row| && CleanRow(row) && !blank.wrap
    ensures CleanRow(InsertBlanks(row, x, n, blank))
  {
  }

  /** The row left behind is stray, except to a cursor to the right of the bit. */
  lemma DeletionLeavesStray(row: Cells, x: nat, n: int, blank: Glyph, atLeast: nat)
    requires x < |row| && Dislodges(row, x, n) && !blank.wrap && !blank.isSet
    ensures Stray(DeleteChars(row, x, n, blank), atLeast) <==> atLeast <= |row| - n || atLeast > |row|
  {
    var r := DeleteChars(row, x, n, blank);
    assert r[|row| - n - 1] == row[|row| - 1];
    LineLenUnique(r, |row| - n);
  }

  const X_WRAPPED := EMPTY.(u := 88, isSet := true, wrap := true)
  const Y := EMPTY.(u := 89, isSet := true)

  /** A line of two rows of three columns after its first two characters are deleted. */
  const AFTER_DELETION := [DeleteChars([Y, Y, X_WRAPPED], 0, 2, EMPTY), [Y, EMPTY, EMPTY]]

  /**
    * Whether such rows are one line or two after a change to any width depends on where the cursor is: the loop
    * takes the first row as going on, unless the cursor stands to the right of the bit.
    */
  lemma CursorDecides(col: nat)
    requires col > 0
    ensures |Lines(AFTER_DELETION)| == 2
    ensures |Lines(Reflow(AFTER_DELETION, col, 0, 2))| == 2
    ensures |Lines(Reflow(AFTER_DELETION, col, 1, 0))| == 1
  {
    var rows := AFTER_DELETION;
    DeletionLeavesStray([Y, Y, X_WRAPPED], 0, 2, EMPTY, 3);
    DeletionLeavesStray([Y, Y, X_WRAPPED], 0, 2, EMPTY, 0);
    assert Ends(rows[0]) && Ends(rows[1]);
    TwoLines(rows);
    hide Stray, Reflow, DeleteChars, Joined, Lines, Ends;
    JoinedTwo(rows, 0, 2);
    JoinedTwo(rows, 1, 0);
    ReflowJoins(rows, col, 0, 2);
    ReflowJoins(rows, col, 1, 0);
  }

  lemma JoinedTwo(rows: seq<Cells>, cy: int, cx: nat)
    requires |rows| == 2
    ensures Joined(rows, cy, cx) == if Stray(rows[0], AtLeast(0, cy, cx)) then 1 else 0
  {
    hide Stray;
    assert rows[..1] == [rows[0]] && [rows[0]][..0] == [];
    assert Strays(rows[..1], cy, cx) ==
      Strays(rows[..1][..0], cy, cx) + if Stray(rows[0], AtLeast(0, cy, cx)) then 1 else 0;
  }

  lemma TwoLines(rows: seq<Cells>)
    requires |rows| == 2 && Ends(rows[0]) && Ends(rows[1])
    ensures |Lines(rows)| == 2
  {
    assert rows == [] + [rows[0]] + [rows[1]];
    ReadTextSnoc([], rows[0]);
    ReadTextSnoc([rows[0]], rows[1]);
  }
}
