/**
  * The order of dmenu's matches and the arithmetic of its pages (dmenu.c), on values.
  */
module Paging {

  // ---------------------------------------------------------------------------------------------
  // Matching

  /** How characters are compared: as they are, or folded for the case-insensitive variant. */
  type Fold = char -> char

  predicate Same(a: string, b: string, fold: Fold) {
    |a| == |b| && forall i | 0 <= i < |a| :: fold(a[i]) == fold(b[i])
  }

  predicate StartsWith(s: string, t: string, fold: Fold) {
    |t| <= |s| && Same(s[..|t|], t, fold)
  }

  /** fstrstr */
  predicate Contains(s: string, t: string, fold: Fold) {
    exists i | 0 <= i <= |s| :: StartsWith(s[i..], t, fold)
  }

  /** The string is in the other one, up to the case of letters. */
  lemma ContainsIs(s: string, t: string, fold: Fold)
    ensures Contains(s, t, fold) <==> exists a, m, b :: s == a + m + b && Same(m, t, fold)
  {
    if Contains(s, t, fold) {
      var i :| 0 <= i <= |s| && StartsWith(s[i..], t, fold);
      assert s == s[..i] + s[i..][..|t|] + s[i..][|t|..];
    }
    if a, m, b :| s == a + m + b && Same(m, t, fold) {
      assert s[|a|..][..|t|] == m;
      assert StartsWith(s[|a|..], t, fold);
    }
  }

  /** The words of the input, as strtok separates them at spaces. */
  function Tokens(s: string): (r: seq<string>)
    ensures forall t | t in r :: t != "" && ' ' !in t
    decreases |s|
  {
    if s == "" then []
    else if s[0] == ' ' then Tokens(s[1..])
    else
      var n := WordEnd(s);
      [s[..n]] + Tokens(s[n..])
  }

  function WordEnd(s: string): (n: nat)
    ensures n <= |s| && ' ' !in s[..n] && (n < |s| ==> s[n] == ' ')
    ensures s != "" && s[0] != ' ' ==> n > 0
  {
    if s == "" || s[0] == ' ' then 0 else 1 + WordEnd(s[1..])
  }

  /** A space separates: the words on both sides of it are the words of the whole. */
  lemma {:induction false} WordsAround(a: string, b: string)
    ensures Tokens(a + " " + b) == Tokens(a) + Tokens(b)
    decreases |a|
  {
    var s := a + " " + b;
    if a == "" {
      assert s[1..] == b;
    } else if a[0] == ' ' {
      assert s[1..] == a[1..] + " " + b;
      WordsAround(a[1..], b);
    } else {
      var n := WordEnd(a);
      WordEndAt(s, n);
      assert s[..n] == a[..n] && s[n..] == a[n..] + " " + b;
      WordsAround(a[n..], b);
      assert [a[..n]] + (Tokens(a[n..]) + Tokens(b)) == [a[..n]] + Tokens(a[n..]) + Tokens(b);
    }
  }

  /** Text without a space is one word, and no text is none: with WordsAround that settles the words of any text. */
  lemma OneWord(w: string)
    requires ' ' !in w
    ensures Tokens(w) == if w == "" then [] else [w]
  {
    if w != "" {
      assert w[0] in w;
      WordEndAt(w, |w|);
      assert w[..|w|] == w && w[|w|..] == "";
    }
  }

  lemma {:induction false} WordEndAt(s: string, n: nat)
    requires n <= |s| && ' ' !in s[..n] && (n < |s| ==> s[n] == ' ')
    ensures WordEnd(s) == n
  {
    if n > 0 {
      assert s[..n][0] == s[0] && s[..n][1..] == s[1..][..n - 1];
      WordEndAt(s[1..], n - 1);
    }
  }

  datatype Class = Exact | Prefix | Inside | Unmatched

  /** Where an item goes for an input text. */
  function ClassOf(item: string, text: string, fold: Fold): Class {
    var tokens := Tokens(text);
    if exists t | t in tokens :: !Contains(item, t, fold) then Unmatched
    else if tokens == [] || Same(text, item, fold) then Exact
    else if StartsWith(item, tokens[0], fold) then Prefix
    else Inside
  }

  function Rank(c: Class): nat {
    match c
    case Exact => 0
    case Prefix => 1
    case Inside => 2
    case Unmatched => 3
  }

  /** The places up to n of the class c, in input order. */
  function Select(classes: seq<Class>, c: Class, n: nat): (r: seq<nat>)
    requires n <= |classes|
    ensures forall j | 0 <= j < |r| :: r[j] < n && classes[r[j]] == c
    ensures forall i | 0 <= i < n && classes[i] == c :: i in r
    ensures forall j, k | 0 <= j < k < |r| :: r[j] < r[k]
  {
    if n == 0 then []
    else if classes[n - 1] == c then
      var r := Select(classes, c, n - 1);
      assert forall i | 0 <= i < n && classes[i] == c :: i == n - 1 || i in r;
      r + [n - 1]
    else Select(classes, c, n - 1)
  }

  /** The order of the matches. */
  function Order(classes: seq<Class>): seq<nat> {
    Select(classes, Exact, |classes|) + Select(classes, Prefix, |classes|) + Select(classes, Inside, |classes|)
  }

  /**
    * Every matching item is there once, and exact matches come before prefixes, prefixes before the others, each
    * in input order.
    */
  lemma OrderIs(classes: seq<Class>)
    ensures forall i | i in Order(classes) :: i < |classes| && !classes[i].Unmatched?
    ensures forall i | 0 <= i < |classes| && !classes[i].Unmatched? :: i in Order(classes)
    ensures var r := Order(classes);
      forall j, k | 0 <= j < k < |r| :: Before(classes, r[j], r[k])
  {
    hide Select;
    OrderHas(classes);
    var r := Order(classes);
    forall j, k | 0 <= j < k < |r| ensures Before(classes, r[j], r[k]) {
      OrderPair(classes, j, k);
    }
  }

  lemma OrderHas(classes: seq<Class>)
    ensures forall i | i in Order(classes) :: i < |classes| && !classes[i].Unmatched?
    ensures forall i | 0 <= i < |classes| && !classes[i].Unmatched? :: i in Order(classes)
  {
    hide Select;
    var n := |classes|;
    forall i | 0 <= i < n && !classes[i].Unmatched? ensures i in Order(classes) {
      assert i in Select(classes, classes[i], n);
    }
  }

  lemma OrderPair(classes: seq<Class>, j: nat, k: nat)
    requires j < k < |Order(classes)|
    ensures Before(classes, Order(classes)[j], Order(classes)[k])
  {
    hide Select;
  }

  predicate Before(classes: seq<Class>, i: nat, j: nat) {
    i < |classes| && j < |classes| &&
    (Rank(classes[i]) < Rank(classes[j]) || (classes[i] == classes[j] && i < j))
  }

  // ---------------------------------------------------------------------------------------------
  // Pages

  /** The space between places i and j. */
  function Sum(ws: seq<nat>, i: nat, j: nat): nat
    requires i <= j <= |ws|
  {
    if i == j then 0 else Sum(ws, i, j - 1) + ws[j - 1]
  }

  /** The first item of the next page, |ws| when there is none; used is taken up so far. */
  function NextFrom(ws: seq<nat>, c: nat, n: int, used: nat): (j: nat)
    requires c <= |ws|
    ensures c <= j <= |ws|
    decreases |ws| - c
  {
    if c == |ws| || used + ws[c] > n then c else NextFrom(ws, c + 1, n, used + ws[c])
  }

  /** The first item of the previous page. */
  function PrevFrom(ws: seq<nat>, c: nat, n: int, used: nat): (j: nat)
    requires c <= |ws|
    ensures j <= c
  {
    if c == 0 || used + ws[c - 1] > n then c else PrevFrom(ws, c - 1, n, used + ws[c - 1])
  }

  /** A page holds as many items as fit. */
  lemma {:induction false} NextFits(ws: seq<nat>, b: nat, c: nat, n: int)
    requires b <= c <= |ws| && (b < c ==> Sum(ws, b, c) <= n)
    ensures var j := NextFrom(ws, c, n, Sum(ws, b, c));
      && (b < j ==> Sum(ws, b, j) <= n) && (j < |ws| ==> Sum(ws, b, j + 1) > n)
    decreases |ws| - c
  {
    if c < |ws| && Sum(ws, b, c) + ws[c] <= n {
      NextFits(ws, b, c + 1, n);
    }
  }

  lemma {:induction false} PrevFits(ws: seq<nat>, c: nat, e: nat, n: int)
    requires c <= e <= |ws| && (c < e ==> Sum(ws, c, e) <= n)
    ensures var j := PrevFrom(ws, c, n, Sum(ws, c, e));
      && (j < e ==> Sum(ws, j, e) <= n) && (j > 0 ==> Sum(ws, j - 1, e) > n)
    decreases c
  {
    if c > 0 {
      SumFront(ws, c - 1, e);
      if Sum(ws, c, e) + ws[c - 1] <= n {
        PrevFits(ws, c - 1, e, n);
      }
    }
  }

  lemma {:induction false} SumFront(ws: seq<nat>, i: nat, j: nat)
    requires i < j <= |ws|
    ensures Sum(ws, i, j) == ws[i] + Sum(ws, i + 1, j)
  {
    if i + 1 < j {
      SumFront(ws, i, j - 1);
    }
  }

  lemma {:induction false} SumMono(ws: seq<nat>, i: nat, j: nat, k: nat)
    requires i <= j <= k <= |ws|
    ensures Sum(ws, i, j) <= Sum(ws, i, k)
  {
    if j < k {
      SumMono(ws, i, j, k - 1);
    }
  }

  function NextPage(ws: seq<nat>, n: int, c: nat): (j: nat)
    requires c <= |ws|
    ensures c <= j <= |ws|
  {
    NextFrom(ws, c, n, 0)
  }

  function PrevPage(ws: seq<nat>, n: int, c: nat): (j: nat)
    requires c <= |ws|
    ensures j <= c
  {
    PrevFrom(ws, c, n, 0)
  }

  /** The previous page, where it starts, still reaches the current one. */
  lemma BackAndForth(ws: seq<nat>, n: int, c: nat)
    requires c <= |ws|
    ensures NextPage(ws, n, PrevPage(ws, n, c)) >= c
  {
    var p := PrevPage(ws, n, c);
    PrevFits(ws, c, c, n);
    NextFits(ws, p, p, n);
    var j := NextPage(ws, n, p);
    if j < c {
      SumMono(ws, p, j + 1, c);
    }
  }

  /** A later page does not end earlier. */
  lemma {:induction false} NextMono(ws: seq<nat>, n: int, c: nat, d: nat)
    requires c <= d <= |ws|
    ensures NextPage(ws, n, c) <= NextPage(ws, n, d)
    decreases d - c
  {
    if c < d {
      LessUsed(ws, c + 1, n, ws[c], 0);
      NextMono(ws, n, c + 1, d);
    }
  }

  lemma {:induction false} LessUsed(ws: seq<nat>, c: nat, n: int, used: nat, less: nat)
    requires c <= |ws| && less <= used
    ensures NextFrom(ws, c, n, used) <= NextFrom(ws, c, n, less)
    decreases |ws| - c
  {
    if c < |ws| {
      LessUsed(ws, c + 1, n, used + ws[c], less + ws[c]);
    }
  }

  /** No page that starts before the previous one shows the item at e. */
  lemma TooEarly(ws: seq<nat>, n: int, e: nat, c: nat)
    requires e <= |ws| && c < PrevPage(ws, n, e)
    ensures NextPage(ws, n, c) <= e
  {
    var p := PrevPage(ws, n, e);
    PrevFits(ws, e, e, n);
    NextFits(ws, p - 1, p - 1, n);
    var j := NextPage(ws, n, p - 1);
    if j > e {
      SumMono(ws, p - 1, e, j);
    }
    NextMono(ws, n, c, p - 1);
  }

  /** The width of an item in the menu: a row of the bar's height, or its text cut to the space there is. */
  function Width(text: nat, lines: nat, bh: nat, n: int): nat {
    if lines > 0 then bh else if 0 <= n < text then n else text
  }

  /** A page that starts at an item shows it exactly when the item fits the space. */
  lemma PageShows(ws: seq<nat>, n: int, c: nat)
    requires c < |ws|
    ensures NextPage(ws, n, c) > c <==> ws[c] <= n
  {
  }

  lemma WidthFits(text: nat, lines: nat, bh: nat, n: int)
    ensures lines > 0 && n == lines * bh ==> Width(text, lines, bh, n) <= n
    ensures lines == 0 ==> (Width(text, lines, bh, n) <= n <==> n >= 0)
  {
    if lines > 0 {
      assert lines * bh == (lines - 1) * bh + bh;
    }
  }
}
