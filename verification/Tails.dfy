/**
  * Texts without their beginning: what is left of the logical lines when the oldest rows are gone.
  */
module Tails {
  import opened Rewrap

  predicate Suffix(a: Cells, b: Cells) {
    |a| <= |b| && a == b[|b| - |a|..]
  }

  /** The last lines of b, the first of them possibly without its beginning. */
  predicate TailLines(a: seq<Cells>, b: seq<Cells>) {
    a == [] || (|a| <= |b| && a[1..] == b[|b| - |a| + 1..] && Suffix(a[0], b[|b| - |a|]))
  }

  predicate TailText(a: Text, b: Text) {
    && |a.closed| <= |b.closed|
    && if a.closed == [] then Suffix(a.open, b.open) else a.open == b.open && TailLines(a.closed, b.closed)
  }

  lemma {:induction false} TrimSuffix(a: Cells, b: Cells)
    requires Suffix(a, b)
    ensures Suffix(Trim(a), Trim(b))
  {
    if a != [] && !a[|a| - 1].isSet {
      TrimSuffix(a[..|a| - 1], b[..|b| - 1]);
    }
  }

  lemma TailWrite(a: Text, b: Text, cells: Cells)
    requires TailText(a, b)
    ensures TailText(Write(a, cells), Write(b, cells))
  {
  }

  lemma TailBreak(a: Text, b: Text)
    requires TailText(a, b)
    ensures TailText(Break(a), Break(b))
  {
    TrimSuffix(a.open, b.open);
    var x, y := Break(a).closed, Break(b).closed;
    if a.closed != [] {
      assert x[1..] == a.closed[1..] + [Trim(a.open)];
      assert y[|y| - |x| + 1..] == b.closed[|b.closed| - |a.closed| + 1..] + [Trim(b.open)];
    }
  }

  /** The text of the rows from number k on. */
  lemma {:induction false} RowsTail(rows: seq<Cells>, k: nat)
    requires k <= |rows|
    ensures TailText(ReadText(rows[k..]), ReadText(rows))
  {
    if k < |rows| {
      var n := |rows| - 1;
      RowsTail(rows[..n], k);
      assert rows[..n][k..] == rows[k..n];
      assert rows == rows[..n] + [rows[n]] && rows[k..] == rows[k..n] + [rows[n]];
      ReadTextSnoc(rows[..n], rows[n]);
      ReadTextSnoc(rows[k..n], rows[n]);
      TailWrite(ReadText(rows[k..n]), ReadText(rows[..n]), rows[n]);
      TailBreak(Write(ReadText(rows[k..n]), rows[n]), Write(ReadText(rows[..n]), rows[n]));
    }
  }

  lemma LinesTail(a: Text, b: Text)
    requires TailText(a, b)
    ensures TailLines(LinesOf(a), LinesOf(b))
  {
    TailBreak(a, b);
  }

  lemma TailLinesTwice(a: seq<Cells>, b: seq<Cells>, c: seq<Cells>)
    requires TailLines(a, b) && TailLines(b, c)
    ensures TailLines(a, c)
  {
    if a != [] {
      var k, n := |b| - |a|, |c| - |a|;
      if k > 0 {
        assert b[k] == b[1..][k - 1] == c[|c| - |b| + 1..][k - 1] == c[n];
      }
      assert a[1..] == b[1..][k..] == c[|c| - |b| + 1..][k..] == c[n + 1..];
    }
  }

  lemma TailTextTwice(a: Text, b: Text, c: Text)
    requires TailText(a, b) && TailText(b, c)
    ensures TailText(a, c)
  {
    if a.closed != [] {
      TailLinesTwice(a.closed, b.closed, c.closed);
    }
  }

  /** The lines of the rows from number k on are the last lines of all rows. */
  lemma RowsLinesTail(rows: seq<Cells>, k: nat)
    requires k <= |rows|
    ensures TailLines(Lines(rows[k..]), Lines(rows))
  {
    RowsTail(rows, k);
    LinesTail(ReadText(rows[k..]), ReadText(rows));
  }

  /** So is the text in front of a cell. */
  lemma BeforeTail(rows: seq<Cells>, k: nat, y: nat, x: nat)
    requires k <= y < |rows| && x <= |rows[y]|
    ensures TailText(Before(rows[k..], y - k, x), Before(rows, y, x))
  {
    RowsTail(rows[..y], k);
    assert rows[k..][..y - k] == rows[..y][k..];
    TailWrite(ReadText(rows[..y][k..]), ReadText(rows[..y]), rows[y][..x]);
  }
}
