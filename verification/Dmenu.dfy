/**
  * dmenu's lists and keys (dmenu.c): the doubly linked list of matches that every change of the input splices
  * together, and the page and selection that every key keeps in step.
  */
module Dmenu {
  import opened Paging

  class Item {
    const text: string
    /** TEXTW of the text */
    const width: nat
    var left: Item?
    var right: Item?

    constructor (text: string, width: nat)
      ensures this.text == text && this.width == width
    {
      this.text, this.width := text, width;
      left, right := null, null;
    }
  }

  function At(s: seq<Item>, i: int): Item? {
    if 0 <= i < |s| then s[i] else null
  }

  predicate NoDup(s: seq<Item>) {
    forall i, j | 0 <= i < j < |s| :: s[i] != s[j]
  }

  /** The list from first to last is s. */
  ghost predicate Linked(s: seq<Item>, first: Item?, last: Item?)
    reads s`left, s`right
  {
    && first == At(s, 0) && last == At(s, |s| - 1) && NoDup(s)
    && forall i | 0 <= i < |s| :: s[i].right == At(s, i + 1) && s[i].left == At(s, i - 1)
  }

  lemma LinkAt(s: seq<Item>, first: Item?, last: Item?, i: nat)
    requires Linked(s, first, last) && i < |s|
    ensures s[i].right == At(s, i + 1) && s[i].left == At(s, i - 1)
  {
  }

  lemma LinkEnds(s: seq<Item>, first: Item?, last: Item?)
    requires Linked(s, first, last)
    ensures first == At(s, 0) && last == At(s, |s| - 1)
    ensures forall i, j | 0 <= i < |s| && 0 <= j <= |s| :: At(s, i) == At(s, j) <==> i == j
  {
  }

  predicate Apart(s: seq<Item>, t: seq<Item>) {
    forall i, j | 0 <= i < |s| && 0 <= j < |t| :: s[i] != t[j]
  }

  /** appenditem: the new first and last item of the list. */
  method AppendItem(item: Item, list: Item?, last: Item?, ghost s: seq<Item>) returns (first: Item, end: Item)
    requires Linked(s, list, last) && item !in s
    modifies item`left, item`right, s`right
    ensures Linked(s + [item], first, end)
  {
    if last != null {
      last.right := item;
      first := list;
    } else {
      first := item;
    }
    item.left := last;
    item.right := null;
    end := item;
  }

  /** appenditem on one of three lists leaves the others as they are. */
  method AppendOne(item: Item, list: Item?, last: Item?, ghost f1: Item?, ghost l1: Item?, ghost f2: Item?,
        ghost l2: Item?, ghost s: seq<Item>, ghost t: seq<Item>, ghost u: seq<Item>) returns (first: Item, end: Item)
    requires Linked(s, list, last) && item !in s
    requires Linked(t, f1, l1) && item !in t && forall x | x in t :: x !in s
    requires Linked(u, f2, l2) && item !in u && forall x | x in u :: x !in s
    modifies item`left, item`right, s`right
    ensures Linked(s + [item], first, end) && Linked(t, f1, l1) && Linked(u, f2, l2)
  {
    first, end := AppendItem(item, list, last, s);
    assert forall i | 0 <= i < |t| :: t[i] in t && t[i] !in s && t[i] != item;
    assert forall i | 0 <= i < |u| :: u[i] in u && u[i] !in s && u[i] != item;
  }

  /** One list put behind another, as match does it: the new first and last item. */
  method Splice(list: Item?, last: Item?, more: Item?, end: Item?, ghost s: seq<Item>, ghost t: seq<Item>)
    returns (first: Item?, newEnd: Item?)
    requires Linked(s, list, last) && Linked(t, more, end) && Apart(s, t)
    modifies s`right, t`left
    ensures Linked(s + t, first, newEnd)
  {
    first, newEnd := list, last;
    if more != null {
      if list != null {
        last.right := more;
        more.left := last;
      } else {
        first := more;
      }
      newEnd := end;
    }
    assert t == [] ==> s + t == s;
    forall i | 0 <= i < |s + t|
      ensures (s + t)[i].right == At(s + t, i + 1) && (s + t)[i].left == At(s + t, i - 1)
    {
      assert (s + t)[i] == if i < |s| then s[i] else t[i - |s|];
    }
  }

  /** Putting one list behind another leaves a third one as it is. */
  method SpliceOne(list: Item?, last: Item?, more: Item?, end: Item?, ghost f: Item?, ghost l: Item?,
      ghost s: seq<Item>, ghost t: seq<Item>, ghost u: seq<Item>) returns (first: Item?, newEnd: Item?)
    requires Linked(s, list, last) && Linked(t, more, end) && Apart(s, t)
    requires Linked(u, f, l) && forall x | x in u :: x !in s && x !in t
    modifies s`right, t`left
    ensures Linked(s + t, first, newEnd) && Linked(u, f, l)
  {
    first, newEnd := Splice(list, last, more, end, s, t);
    assert forall i | 0 <= i < |u| :: u[i] in u && u[i] !in s && u[i] !in t;
  }

  // ---------------------------------------------------------------------------------------------
  // The menu

  function Picked(items: seq<Item>, places: seq<nat>): (r: seq<Item>)
    requires forall k | 0 <= k < |places| :: places[k] < |items|
    ensures |r| == |places| && forall k | 0 <= k < |places| :: r[k] == items[places[k]]
  {
    seq(|places|, k requires 0 <= k < |places| => items[places[k]])
  }

  ghost function Classes(items: seq<Item>, text: string, fold: Fold): (r: seq<Class>)
    ensures |r| == |items| && forall k | 0 <= k < |items| :: r[k] == ClassOf(items[k].text, text, fold)
  {
    seq(|items|, k requires 0 <= k < |items| => ClassOf(items[k].text, text, fold))
  }

  ghost function Widths(s: seq<Item>, lines: nat, bh: nat, n: int): (r: seq<nat>)
    ensures |r| == |s| && forall k | 0 <= k < |s| :: r[k] == Width(s[k].width, lines, bh, n)
  {
    seq(|s|, k requires 0 <= k < |s| => Width(s[k].width, lines, bh, n))
  }

  /** The items of class c among the first n. */
  ghost function Chosen(items: seq<Item>, cs: seq<Class>, c: Class, n: nat): seq<Item>
    requires n <= |items| == |cs|
  {
    Picked(items, Select(cs, c, n))
  }

  lemma ChosenNext(items: seq<Item>, cs: seq<Class>, c: Class, n: nat)
    requires n < |items| == |cs|
    ensures Chosen(items, cs, c, n + 1) == if cs[n] == c then Chosen(items, cs, c, n) + [items[n]]
      else Chosen(items, cs, c, n)
    ensures Chosen(items, cs, c, 0) == []
  {
  }

  /** The chosen items are different ones, and different classes choose different items. */
  lemma ChosenApart(items: seq<Item>, cs: seq<Class>, c: Class, d: Class, n: nat)
    requires n <= |items| == |cs| && NoDup(items) && c != d
    ensures Apart(Chosen(items, cs, c, n), Chosen(items, cs, d, n))
    ensures forall x | x in Chosen(items, cs, c, n) :: x !in Chosen(items, cs, d, n)
  {
    hide Select;
    var s, t := Select(cs, c, n), Select(cs, d, n);
    forall i, j | 0 <= i < |s| && 0 <= j < |t| ensures items[s[i]] != items[t[j]] {
      assert s[i] != t[j];
    }
  }

  lemma ChosenOld(items: seq<Item>, cs: seq<Class>, c: Class, n: nat)
    requires n <= |items| == |cs| && NoDup(items)
    ensures n < |items| ==> items[n] !in Chosen(items, cs, c, n)
    ensures forall x | x in Chosen(items, cs, c, n) :: x in items
  {
    hide Select;
    var s := Select(cs, c, n);
    if n < |items| {
      forall i | 0 <= i < |s| ensures items[s[i]] != items[n] {
      }
    }
  }

  /** cistrstr */
  method StrStr(h: string, n: string, fold: Fold) returns (found: bool)
    ensures found <==> Contains(h, n, fold)
  {
    if n == "" {
      assert StartsWith(h[0..], n, fold);
      return true;
    }
    for j := 0 to |h|
      invariant forall k | 0 <= k < j :: !StartsWith(h[k..], n, fold)
    {
      var i := 0;
      while i < |n| && j + i < |h| && fold(n[i]) == fold(h[j + i])
        invariant 0 <= i <= |n| && j + i <= |h|
        invariant forall k | 0 <= k < i :: fold(h[j..][k]) == fold(n[k])
      {
        i := i + 1;
      }
      if i == |n| {
        assert StartsWith(h[j..], n, fold);
        return true;
      }
      assert j + i < |h| ==> h[j..][..|h| - j][i] == h[j + i];
    }
    return false;
  }

  /** The class of an item, as the loop over the tokens and the comparisons find it. */
  method Classify(item: string, text: string, fold: Fold, tokens: seq<string>) returns (c: Class)
    requires tokens == Tokens(text)
    ensures c == ClassOf(item, text, fold)
  {
    var i := 0;
    while i < |tokens|
      invariant 0 <= i <= |tokens| && forall j | 0 <= j < i :: Contains(item, tokens[j], fold)
    {
      var found := StrStr(item, tokens[i], fold);
      if !found {
        assert tokens[i] in tokens;
        return Unmatched;
      }
      i := i + 1;
    }
    assert forall t | t in tokens :: Contains(item, t, fold);
    if |tokens| == 0 || Same(text, item, fold) {
      return Exact;
    } else if StartsWith(item, tokens[0], fold) {
      return Prefix;
    }
    return Inside;
  }

  /** The matches of a text are the items that contain its words, exact ones first, then prefixes, in input order. */
  lemma MatchesAre(items: seq<Item>, text: string, fold: Fold)
    ensures var cs, n := Classes(items, text, fold), |items|;
      var s := Chosen(items, cs, Exact, n) + Chosen(items, cs, Prefix, n) + Chosen(items, cs, Inside, n);
      && |s| == |Order(cs)| && (forall j | 0 <= j < |s| :: Order(cs)[j] < n && s[j] == items[Order(cs)[j]])
      && (forall i | 0 <= i < n :: i in Order(cs) <==> forall t | t in Tokens(text) :: Contains(items[i].text, t, fold))
      && forall j, k | 0 <= j < k < |s| ::
        Precedes(s[j].text, s[k].text, text, fold) &&
        (Precedes(s[k].text, s[j].text, text, fold) ==> Order(cs)[j] < Order(cs)[k])
  {
    hide Select, Order, Tokens, Contains;
    var cs := Classes(items, text, fold);
    OrderIs(cs);
    SameOrder(items, text, fold);
    var r := Order(cs);
    forall j, k | 0 <= j < k < |r|
      ensures Precedes(items[r[j]].text, items[r[k]].text, text, fold)
      ensures Precedes(items[r[k]].text, items[r[j]].text, text, fold) ==> r[j] < r[k]
    {
      assert Paging.Before(cs, r[j], r[k]);
      assert r[j] in r && r[k] in r;
    }
  }

  lemma SameOrder(items: seq<Item>, text: string, fold: Fold)
    ensures var cs, n := Classes(items, text, fold), |items|;
      var s := Chosen(items, cs, Exact, n) + Chosen(items, cs, Prefix, n) + Chosen(items, cs, Inside, n);
      && |s| == |Order(cs)| && forall j | 0 <= j < |s| :: Order(cs)[j] < n && s[j] == items[Order(cs)[j]]
  {
    hide Select;
  }

  /** One match comes before another if it equals the text, or no words are given, or it begins with the first word. */
  predicate Precedes(a: string, b: string, text: string, fold: Fold) {
    var w := Tokens(text);
    if w == [] || Same(text, a, fold) then true
    else !Same(text, b, fold) && (StartsWith(a, w[0], fold) || !StartsWith(b, w[0], fold))
  }

  const BUFSIZ := 8192

  /** The longest start of a string that fits the text with its terminator. */
  function Cut(s: string): (r: string)
    ensures r <= s && |r| <= BUFSIZ - 1 && (r == s || |r| == BUFSIZ - 1)
  {
    if |s| <= BUFSIZ - 1 then s else s[..BUFSIZ - 1]
  }

  datatype Key =
    | Insert(str: string) | Backspace | Delete | DeleteRight | Tab
    | Left | Right | Up | Down | Home | End | Next | Prior | ViFirst | ViLast

  class Menu {
    const items: seq<Item>
    const lines: nat
    const bh: nat
    /** the space for items */
    const n: int
    const fold: Fold
    var text: string
    var cursor: nat
    var matches: Item?
    var matchend: Item?
    var curr: Item?
    var next: Item?
    var prev: Item?
    var sel: Item?
    /** the matches in order, and the places of curr and sel among them */
    ghost var s: seq<Item>
    ghost var ci: nat
    ghost var si: nat

    /** Each item fits the space: a vertical list, or a horizontal one that is not narrower than its frame. */
    predicate Wide() {
      (lines > 0 && n == lines * bh) || (lines == 0 && n >= 0)
    }

    ghost function Ws(): (r: seq<nat>)
      reads this`s
      ensures |r| == |s|
    {
      Widths(s, lines, bh, n)
    }

    ghost predicate Listed()
      reads this`s, this`matches, this`matchend, s`left, s`right
    {
      Linked(s, matches, matchend) && forall i | 0 <= i < |s| :: s[i] in items
    }

    /** curr is at ci, and next and prev begin the pages after and before it. */
    ghost predicate Paged()
      reads this`s, this`ci, this`curr, this`next, this`prev
    {
      && ci <= |s| && curr == At(s, ci)
      && next == At(s, NextPage(Ws(), n, ci)) && prev == if ci < |s| then At(s, PrevPage(Ws(), n, ci)) else null
    }

    /** The selected item is on the page that starts at curr. */
    ghost predicate OnPage()
      reads this`s, this`ci, this`si, this`sel
    {
      if s == [] then sel == null && ci == 0 && si == 0
      else ci <= si < |s| && si < NextPage(Ws(), n, ci) && sel == s[si]
    }

    /** The matches are those of the text, in their order. */
    ghost predicate Matched()
      reads this`s, this`text
    {
      var cs := Classes(items, text, fold);
      s == Chosen(items, cs, Exact, |items|) + Chosen(items, cs, Prefix, |items|) + Chosen(items, cs, Inside, |items|)
    }

    ghost predicate Valid()
      reads this, items`left, items`right, s`left, s`right
    {
      NoDup(items) && Wide() && cursor <= |text| && Listed() && Paged() && OnPage() && Matched()
    }

    constructor (items: seq<Item>, lines: nat, bh: nat, n: int, fold: Fold)
      requires NoDup(items) && ((lines > 0 && n == lines * bh) || (lines == 0 && n >= 0))
      modifies items`left, items`right
      ensures this.items == items && this.lines == lines && this.bh == bh && this.n == n && this.fold == fold
      ensures Valid() && text == "" && cursor == 0 && ci == 0 && si == 0
    {
      this.items, this.lines, this.bh, this.n, this.fold := items, lines, bh, n, fold;
      text, cursor := "", 0;
      matches, matchend, curr, next, prev, sel := null, null, null, null, null, null;
      s, ci, si := [], 0, 0;
      new;
      Match();
    }

    /** calcoffsets */
    method CalcOffsets()
      requires Linked(s, matches, matchend) && ci <= |s| && curr == At(s, ci)
      modifies this`next, this`prev
      ensures Paged()
    {
      CalcNext();
      CalcPrev();
    }

    /** The loop that finds the next page. */
    method CalcNext()
      requires Linked(s, matches, matchend) && ci <= |s| && curr == At(s, ci)
      modifies this`next
      ensures next == At(s, NextPage(Ws(), n, ci))
    {
      hide Linked, Width, NextPage;
      ghost var ws := Ws();
      var i: nat := 0;
      ghost var k: nat := ci;
      NextStarts(ci);
      next := curr;
      while next != null
        invariant ci <= k <= |s| && next == At(s, k)
        invariant NextFrom(ws, k, n, i) == NextPage(ws, n, ci)
        decreases |s| - k
      {
        i := i + Width(next.width, lines, bh, n);
        if i > n {
          break;
        }
        LinkAt(s, matches, matchend, k);
        next, k := next.right, k + 1;
      }
    }

    lemma NextStarts(c: nat)
      requires c <= |s|
      ensures NextPage(Ws(), n, c) == NextFrom(Ws(), c, n, 0)
    {
    }

    lemma PrevStarts(c: nat)
      requires c <= |s|
      ensures PrevPage(Ws(), n, c) == PrevFrom(Ws(), c, n, 0)
    {
    }

    /** The loop that finds the previous page. */
    method CalcPrev()
      requires Linked(s, matches, matchend) && ci <= |s| && curr == At(s, ci)
      modifies this`prev
      ensures prev == if ci < |s| then At(s, PrevPage(Ws(), n, ci)) else null
    {
      hide Linked, Width, PrevPage;
      ghost var ws := Ws();
      var i: nat := 0;
      ghost var k: nat := ci;
      PrevStarts(ci);
      prev := curr;
      if k < |s| {
        LinkAt(s, matches, matchend, k);
      }
      while prev != null && prev.left != null
        invariant k <= ci && prev == (if ci < |s| then At(s, k) else null)
        invariant prev != null ==> prev.left == At(s, k - 1)
        invariant ci < |s| ==> PrevFrom(ws, k, n, i) == PrevPage(ws, n, ci)
        decreases k
      {
        i := i + Width(prev.left.width, lines, bh, n);
        if i > n {
          break;
        }
        prev, k := prev.left, k - 1;
        LinkAt(s, matches, matchend, k);
      }
    }

    /** match */
    method Match()
      requires NoDup(items) && Wide() && cursor <= |text|
      modifies this`matches, this`matchend, this`curr, this`next, this`prev, this`sel, this`s, this`ci, this`si
      modifies items`left, items`right
      ensures Valid() && ci == 0 && si == 0
    {
      hide Wide, Linked, NoDup, Classes, Chosen, NextPage, PrevPage, Ws, Matched, Paged, OnPage;
      SpliceAll();
      Restart();
    }

    /** The first match is selected on the first page. */
    method Restart()
      requires Linked(s, matches, matchend) && Wide()
      modifies this`curr, this`next, this`prev, this`sel, this`ci, this`si
      ensures Paged() && OnPage() && ci == 0 && si == 0
    {
      hide Wide, NextPage, PrevPage, Ws, Width, Linked;
      LinkEnds(s, matches, matchend);
      ci, si := 0, 0;
      curr, sel := matches, matches;
      if s != [] {
        FirstShows(0);
      }
      CalcOffsets();
    }

    /** The three lists of match become one. */
    method SpliceAll()
      requires NoDup(items)
      modifies this`matches, this`matchend, this`s, items`left, items`right
      ensures Listed() && Matched()
    {
      hide Chosen, Linked, NoDup;
      var lprefix, prefixend, lsubstr, substrend;
      ghost var cs := Classes(items, text, fold);
      ghost var e, p, o := Chosen(items, cs, Exact, |items|), Chosen(items, cs, Prefix, |items|),
        Chosen(items, cs, Inside, |items|);
      matches, matchend, lprefix, prefixend, lsubstr, substrend := Gather();
      AllChosen(cs, |items|);
      matches, matchend := SpliceOne(matches, matchend, lprefix, prefixend, lsubstr, substrend, e, p, o);
      BothApart(e, p, o);
      matches, matchend := Splice(matches, matchend, lsubstr, substrend, e + p, o);
      s := e + p + o;
    }

    lemma BothApart(e: seq<Item>, p: seq<Item>, o: seq<Item>)
      requires Apart(e, o) && Apart(p, o)
      ensures Apart(e + p, o)
    {
    }

    /** The loop of match: the three lists. */
    method Gather() returns (a: Item?, b: Item?, c: Item?, d: Item?, f: Item?, g: Item?)
      requires NoDup(items)
      modifies items`left, items`right
      ensures var cs, n := Classes(items, text, fold), |items|;
        && Linked(Chosen(items, cs, Exact, n), a, b) && Linked(Chosen(items, cs, Prefix, n), c, d)
        && Linked(Chosen(items, cs, Inside, n), f, g)
    {
      hide Chosen, NoDup, Linked;
      var tokens := Tokens(text);
      ghost var cs := Classes(items, text, fold);
      a, b, c, d, f, g := null, null, null, null, null, null;
      NothingLinked(cs);
      for i := 0 to |items|
        invariant Linked(Chosen(items, cs, Exact, i), a, b)
        invariant Linked(Chosen(items, cs, Prefix, i), c, d)
        invariant Linked(Chosen(items, cs, Inside, i), f, g)
      {
        ghost var e, p, o := Chosen(items, cs, Exact, i), Chosen(items, cs, Prefix, i), Chosen(items, cs, Inside, i);
        AllChosen(cs, i);
        assert items[i] in items;
        var k := Classify(items[i].text, text, fold, tokens);
        if k == Exact {
          a, b := AppendOne(items[i], a, b, c, d, f, g, e, p, o);
        } else if k == Prefix {
          c, d := AppendOne(items[i], c, d, a, b, f, g, p, e, o);
        } else if k == Inside {
          f, g := AppendOne(items[i], f, g, a, b, c, d, o, e, p);
        }
        ChosenNext(items, cs, Exact, i);
        ChosenNext(items, cs, Prefix, i);
        ChosenNext(items, cs, Inside, i);
      }
    }

    lemma NothingLinked(cs: seq<Class>)
      requires |cs| == |items|
      ensures Linked(Chosen(items, cs, Exact, 0), null, null) && Linked(Chosen(items, cs, Prefix, 0), null, null)
      ensures Linked(Chosen(items, cs, Inside, 0), null, null)
    {
    }

    /** The chosen items of the three classes are different ones among the first n. */
    lemma AllChosen(cs: seq<Class>, n: nat)
      requires n <= |items| == |cs| && NoDup(items)
      ensures var e, p, o := Chosen(items, cs, Exact, n), Chosen(items, cs, Prefix, n), Chosen(items, cs, Inside, n);
        && Apart(e, p) && Apart(e, o) && Apart(p, o)
        && (forall x | x in e :: x in items && x !in p && x !in o)
        && (forall x | x in p :: x in items && x !in e && x !in o)
        && (forall x | x in o :: x in items && x !in e && x !in p)
        && (n < |items| ==> items[n] !in e && items[n] !in p && items[n] !in o)
        && (forall j | 0 <= j < |e| :: e[j] in items) && (forall j | 0 <= j < |p| :: p[j] in items)
        && (forall j | 0 <= j < |o| :: o[j] in items)
    {
      hide Chosen;
      ChosenOld(items, cs, Exact, n);
      ChosenOld(items, cs, Prefix, n);
      ChosenOld(items, cs, Inside, n);
      ChosenApart(items, cs, Exact, Prefix, n);
      ChosenApart(items, cs, Prefix, Exact, n);
      ChosenApart(items, cs, Exact, Inside, n);
      ChosenApart(items, cs, Inside, Exact, n);
      ChosenApart(items, cs, Prefix, Inside, n);
      ChosenApart(items, cs, Inside, Prefix, n);
    }

    // -------------------------------------------------------------------------------------------
    // Keys

    /** A page shows its first item. */
    lemma FirstShows(c: nat)
      requires Wide() && c < |s|
      ensures NextPage(Ws(), n, c) > c
    {
      WidthFits(s[c].width, lines, bh, n);
      PageShows(Ws(), n, c);
    }

    /** The page before reaches the last item before the current page. */
    lemma PrevShows(c: nat)
      requires Wide() && 0 < c < |s|
      ensures PrevPage(Ws(), n, c) < c <= NextPage(Ws(), n, PrevPage(Ws(), n, c))
    {
      WidthFits(s[c - 1].width, lines, bh, n);
      BackAndForth(Ws(), n, c);
    }

    /** The cursor is at c, and nothing else of the menu has changed. */
    twostate predicate CursorAt(c: int)
      reads this`text, this`cursor, this`s, this`ci, this`si
    {
      text == old(text) && cursor == c && s == old(s) && ci == old(ci) && si == old(si)
    }

    /** Match i is selected on the page that starts at p, and nothing else of the menu has changed. */
    twostate predicate Selects(i: int, p: int)
      reads this`text, this`cursor, this`s, this`ci, this`si
    {
      text == old(text) && cursor == old(cursor) && s == old(s) && si == i && ci == p
    }

    /** One match down: to the next page when it is the first of that one. */
    twostate predicate GoesDown()
      requires old(ci) <= |old(s)|
      reads this`text, this`cursor, this`s, this`ci, this`si
    {
      var i := old(si) + 1;
      if i < |old(s)| then Selects(i, if i == NextPage(old(Ws()), n, old(ci)) then i else old(ci))
      else Selects(old(si), old(ci))
    }

    /** One match up: to the page before when it was the first of its page. */
    twostate predicate GoesUp()
      requires old(ci) <= |old(s)|
      reads this`text, this`cursor, this`s, this`ci, this`si
    {
      if old(si) > 0 then
        Selects(old(si) - 1, if old(si) == old(ci) then PrevPage(old(Ws()), n, old(ci)) else old(ci))
      else Selects(0, old(ci))
    }

    /** The last match is selected, on this page if it shows it, else on the first page that does. */
    twostate predicate GoesToLast()
      requires old(ci) <= |old(s)|
      reads this`text, this`cursor, this`s, this`ci, this`si
    {
      && Selects(if old(s) == [] then 0 else |old(s)| - 1, ci) && ci <= |s|
      && if NextPage(old(Ws()), n, old(ci)) == |old(s)| then ci == old(ci)
         else NextPage(Ws(), n, ci) == |s| && forall c | 0 <= c < ci :: NextPage(Ws(), n, c) < |s|
    }

    /** XK_Down and vi's j */
    method Down()
      requires Valid()
      modifies this`sel, this`curr, this`next, this`prev, this`ci, this`si
      ensures GoesDown() && Valid()
    {
      hide Matched, Wide, NextPage, PrevPage, Ws, NoDup, Width, Linked;
      LinkEnds(s, matches, matchend);
      if sel != null {
        LinkAt(s, matches, matchend, si);
      }
      if sel != null && sel.right != null {
        sel, si := sel.right, si + 1;
        if sel == next {
          curr, ci := next, si;
          FirstShows(ci);
          CalcOffsets();
        }
      }
    }

    /** XK_Up and vi's k */
    method Up()
      requires Valid()
      modifies this`sel, this`curr, this`next, this`prev, this`ci, this`si
      ensures GoesUp() && Valid()
    {
      hide Matched, Wide, NextPage, PrevPage, Ws, NoDup, Width, Linked;
      LinkEnds(s, matches, matchend);
      if sel != null {
        LinkAt(s, matches, matchend, si);
      }
      if sel != null && sel.left != null {
        sel, si := sel.left, si - 1;
        LinkAt(s, matches, matchend, si);
        if sel.right == curr {
          PrevShows(ci);
          curr, ci := prev, PrevPage(Ws(), n, ci);
          CalcOffsets();
        }
      }
    }

    /** XK_Next */
    method PageDown()
      requires Valid()
      modifies this`sel, this`curr, this`next, this`prev, this`ci, this`si
      ensures var j := NextPage(Ws(), n, old(ci));
        if j < |s| then Selects(j, j) else Selects(old(si), old(ci))
      ensures Valid()
    {
      hide Matched, Wide, NextPage, PrevPage, Ws, NoDup, Width, Linked;
      if next == null {
        return;
      }
      ci := NextPage(Ws(), n, ci);
      si := ci;
      sel, curr := next, next;
      FirstShows(ci);
      CalcOffsets();
    }

    /** XK_Prior */
    method PageUp()
      requires Valid()
      modifies this`sel, this`curr, this`next, this`prev, this`ci, this`si
      ensures var j := PrevPage(Ws(), n, old(ci)); if s != [] then Selects(j, j) else Selects(0, 0)
      ensures Valid()
    {
      hide Matched, Wide, NextPage, PrevPage, Ws, NoDup, Width, Linked;
      if prev == null {
        return;
      }
      ci := PrevPage(Ws(), n, ci);
      si := ci;
      sel, curr := prev, prev;
      FirstShows(ci);
      CalcOffsets();
    }

    /** Both XK_Home and vi's g go to the first match. */
    method First()
      requires Valid()
      modifies this`sel, this`curr, this`next, this`prev, this`ci, this`si
      ensures Selects(0, 0) && Valid()
    {
      hide Matched, Wide, NextPage, PrevPage, Ws, Width, Linked, NoDup;
      Restart();
    }

    /** The pages are laid from the end: the first place from which the last match shows. */
    method LastPage()
      requires Linked(s, matches, matchend) && s != [] && Wide()
      modifies this`curr, this`next, this`prev, this`ci
      ensures Paged() && ci < |s| && next == null
      ensures forall c | 0 <= c < ci :: NextPage(Ws(), n, c) < |s|
    {
      hide Wide, NextPage, PrevPage, Ws, Width, Linked;
      LinkEnds(s, matches, matchend);
      curr, ci := matchend, |s| - 1;
      CalcOffsets();
      curr, ci := prev, PrevPage(Ws(), n, ci);
      forall c | 0 <= c < ci ensures NextPage(Ws(), n, c) < |s| {
        TooEarly(Ws(), n, |s| - 1, c);
      }
      CalcOffsets();
      while next != null
        invariant Paged() && ci < |s|
        invariant forall c | 0 <= c < ci :: NextPage(Ws(), n, c) < |s|
        decreases |s| - ci
      {
        FirstShows(ci);
        LinkAt(s, matches, matchend, ci);
        curr, ci := curr.right, ci + 1;
        CalcOffsets();
      }
    }

    /** XK_End and vi's G: the last match, on this page if it ends it, else on the first page that does. */
    method Last()
      requires Valid()
      modifies this`sel, this`curr, this`next, this`prev, this`ci, this`si
      ensures GoesToLast() && Valid()
    {
      hide Matched, Wide, NextPage, PrevPage, Ws, NoDup, Width, Linked;
      LinkEnds(s, matches, matchend);
      if next != null {
        LastPage();
      }
      sel, si := matchend, if s == [] then 0 else |s| - 1;
    }

    /** insert: the input changes and is matched again. */
    method SetText(t: string, c: nat)
      requires Valid() && c <= |t|
      modifies this, items`left, items`right
      ensures Valid() && text == t && cursor == c && ci == 0 && si == 0
    {
      hide Matched, Wide, Linked, Paged, OnPage;
      text, cursor := t, c;
      Match();
    }

    /** The text is before + after with the cursor between them, and the first match is selected. */
    ghost predicate Edited(before: string, after: string)
      reads this`text, this`cursor, this`ci, this`si
    {
      text == before + after && cursor == |before| && ci == 0 && si == 0
    }

    /** XK_Tab: the selected item becomes the text, cut to the buffer. */
    method Complete()
      requires Valid()
      modifies this, items`left, items`right
      ensures Valid()
      ensures if old(s) == [] then CursorAt(old(cursor))
        else Edited(Cut(old(s[si].text)), "")
    {
      hide Matched, Wide, Linked, Paged;
      if sel == null {
        return;
      }
      var t := Cut(sel.text);
      SetText(t, |t|);
    }

    /** The keys that edit the text. */
    method Edit(k: Key)
      requires Valid() && (k.Insert? || k.Backspace? || k.Delete? || k.DeleteRight?)
      modifies this, items`left, items`right
      ensures Valid()
      ensures var t, c := old(text), old(cursor);
        match k
        case Insert(str) => if |t| + |str| <= BUFSIZ - 1 then Edited(t[..c] + str, t[c..]) else CursorAt(c)
        case Backspace => if c > 0 then Edited(t[..c - 1], t[c..]) else CursorAt(c)
        case Delete => if c < |t| then Edited(t[..c], t[c + 1..]) else CursorAt(c)
        case _ => Edited(t[..c], "")
    {
      hide Matched, Wide, Linked, Paged, OnPage;
      if k.Insert? {
        if |text| + |k.str| <= BUFSIZ - 1 {
          SetText(text[..cursor] + k.str + text[cursor..], cursor + |k.str|);
        }
      } else if k.Backspace? {
        if cursor > 0 {
          SetText(text[..cursor - 1] + text[cursor..], cursor - 1);
        }
      } else if k.Delete? {
        if cursor < |text| {
          SetText(text[..cursor] + text[cursor + 1..], cursor);
        }
      } else {
        SetText(text[..cursor], cursor);
      }
    }

    lemma FirstSelected()
      requires Valid()
      ensures (sel == matches <==> si == 0) && (sel != null && sel.left != null <==> si > 0)
    {
      hide Matched, Wide, Paged, NoDup, NextPage;
      LinkEnds(s, matches, matchend);
      if s != [] {
        LinkAt(s, matches, matchend, si);
      }
    }

    /** XK_Home and XK_End: first within the text, then in the list. */
    method Jump(k: Key)
      requires Valid() && (k.Home? || k.End?)
      modifies this`cursor, this`sel, this`curr, this`next, this`prev, this`ci, this`si
      ensures Valid()
      ensures if k.Home? then if old(si) == 0 then CursorAt(0) else Selects(0, 0)
        else if old(cursor) < |text| then CursorAt(|text|) else GoesToLast()
    {
      hide Matched, Wide, Linked, Paged, NoDup, NextPage;
      FirstSelected();
      if k.End? {
        if cursor != |text| {
          cursor := |text|;
        } else {
          Last();
        }
      } else if sel == matches {
        cursor := 0;
      } else {
        First();
      }
    }

    /** XK_Left and XK_Right: first within the text, then in a horizontal list. */
    method Sideways(k: Key)
      requires Valid() && (k.Left? || k.Right?)
      modifies this`cursor, this`sel, this`curr, this`next, this`prev, this`ci, this`si
      ensures Valid()
      ensures var c := old(cursor);
        if k.Left? && c > 0 && (old(si) == 0 || lines > 0) then CursorAt(c - 1)
        else if k.Right? && c < |text| then CursorAt(c + 1)
        else if lines > 0 then CursorAt(c)
        else if k.Left? then GoesUp() else GoesDown()
    {
      hide Matched, Wide, Linked, Paged, NoDup, NextPage, PrevPage;
      FirstSelected();
      if k.Left? {
        if cursor > 0 && (sel == null || sel.left == null || lines > 0) {
          cursor := cursor - 1;
        } else if lines == 0 {
          Up();
        }
      } else if cursor != |text| {
        cursor := cursor + 1;
      } else if lines == 0 {
        Down();
      }
    }
    /** A key of the input line or the list. */
    method Press(k: Key)
      requires Valid()
      modifies this, items`left, items`right
      ensures var t, c := old(text), old(cursor);
        match k
        case Insert(str) => if |t| + |str| <= BUFSIZ - 1 then Edited(t[..c] + str, t[c..]) else CursorAt(c)
        case Backspace => if c > 0 then Edited(t[..c - 1], t[c..]) else CursorAt(c)
        case Delete => if c < |t| then Edited(t[..c], t[c + 1..]) else CursorAt(c)
        case DeleteRight => Edited(t[..c], "")
        case Tab => if old(s) == [] then CursorAt(c) else Edited(Cut(old(s[si].text)), "")
        case Left =>
          if c > 0 && (old(si) == 0 || lines > 0) then CursorAt(c - 1)
          else if lines > 0 then CursorAt(c) else GoesUp()
        case Right => if c < |t| then CursorAt(c + 1) else if lines > 0 then CursorAt(c) else GoesDown()
        case Up => GoesUp()
        case Down => GoesDown()
        case Home => if old(si) == 0 then CursorAt(0) else Selects(0, 0)
        case End => if c < |t| then CursorAt(|t|) else GoesToLast()
        case Next =>
          var j := NextPage(old(Ws()), n, old(ci));
          if j < |old(s)| then Selects(j, j) else Selects(old(si), old(ci))
        case Prior =>
          var j := PrevPage(old(Ws()), n, old(ci)); if old(s) == [] then Selects(0, 0) else Selects(j, j)
        case ViFirst => if old(si) == 0 then CursorAt(c) else Selects(0, 0)
        case ViLast => GoesToLast()
      ensures Valid()
    {
      hide Matched, Wide, Linked, Paged, NoDup, NextPage, PrevPage, Ws, Edited, GoesUp, GoesDown, GoesToLast;
      match k
      case Insert(_) | Backspace | Delete | DeleteRight => Edit(k);
      case Tab => Complete();
      case Home | End => Jump(k);
      case Left | Right => Sideways(k);
      case Up => Up();
      case Down => Down();
      case Next => PageDown();
      case Prior => PageUp();
      case ViFirst =>
        FirstSelected();
        if sel != matches {
          First();
        }
      case ViLast => Last();
    }

    /** After any keys the selected item is on the page that is shown. */
    method Run(keys: seq<Key>)
      requires Valid()
      modifies this, items`left, items`right
      ensures Valid()
    {
      hide Valid;
      for i := 0 to |keys|
        invariant Valid()
      {
        Press(keys[i]);
      }
    }
  }
}
