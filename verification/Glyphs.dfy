/**
  * Screen cells of the terminal (st.h: Glyph; st.c: tlinelen, tiswrapped, tclearglyph).
  *
  * The mode word of a glyph is kept as its SET bit, its WRAP bit and the remaining bits as a number:
  * only the first two matter to the scrollback and resize code.
  */
module Glyphs {

  datatype Glyph = Glyph(u: nat, isSet: bool, wrap: bool, attrs: nat, fg: nat, bg: nat) {
    predicate Counts() {
      isSet || wrap
    }
  }

  const DEFAULT_FG: nat := 15
  const DEFAULT_BG: nat := 0

  function Blank(fg: nat, bg: nat): Glyph {
    Glyph(32, false, false, 0, fg, bg)
  }

  const EMPTY := Blank(DEFAULT_FG, DEFAULT_BG)

  function Blanks(n: nat, g: Glyph): (s: seq<Glyph>)
    ensures |s| == n && forall i | 0 <= i < n :: s[i] == g
  {
    seq(n, _ => g)
  }

  /** Cells up to and including the last one that is set or carries the WRAP bit. */
  function LineLen(row: seq<Glyph>): (n: nat)
    ensures n <= |row|
    ensures forall k | n <= k < |row| :: !row[k].Counts()
    ensures n > 0 ==> row[n - 1].Counts()
  {
    if row == [] then 0
    else if row[|row| - 1].Counts() then |row|
    else LineLen(row[..|row| - 1])
  }

  predicate IsWrapped(row: seq<Glyph>) {
    var n := LineLen(row);
    n > 0 && row[n - 1].wrap
  }

  lemma LineLenUnique(row: seq<Glyph>, n: nat)
    requires n <= |row|
    requires forall k | n <= k < |row| :: !row[k].Counts()
    requires n > 0 ==> row[n - 1].Counts()
    ensures LineLen(row) == n
  {
    var m := LineLen(row);
    assert m > 0 ==> row[m - 1].Counts();
  }
}
