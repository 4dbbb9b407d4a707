/**
  * The two lists of every dwm monitor (dwm.c): the client list threaded through `next` and the focus
  * stack threaded through `snext`, changed in place.
  */
module ClientLists {

  /** A set of tags, one bit a tag. */
  type Mask = bv32

  /** (1 << LENGTH(tags)) - 1 for the three tags of config.h */
  const TAGMASK: Mask := 7

  predicate On(t: Mask, shown: Mask) {
    t & shown != 0
  }

  function Masked(ui: Mask): Mask {
    ui & TAGMASK
  }

  function Toggled(t: Mask, ui: Mask): Mask {
    t ^ (ui & TAGMASK)
  }

  predicate Proper(t: Mask) {
    t != 0 && t & TAGMASK == t
  }

  /** The tag with the bit b is in t. */
  predicate Has(t: Mask, b: Mask) {
    t & b != 0
  }

  /** Tag by tag: toggling takes away a tag that is set, and masking leaves the tags there are. */
  lemma TagByTag(t: Mask, ui: Mask, b: Mask)
    requires b == 1 || b == 2 || b == 4
    ensures Has(Masked(ui), b) <==> Has(ui, b)
    ensures Has(Toggled(t, ui), b) <==> Has(t, b) != Has(ui, b)
  {
  }

  /** Something is visible if it has one of the tags shown, and a mask is empty if it has no tag. */
  lemma OnByTag(t: Mask, shown: Mask)
    ensures t & TAGMASK == t ==>
      (On(t, shown) <==>
        (Has(t, 1) && Has(shown, 1)) || (Has(t, 2) && Has(shown, 2)) || (Has(t, 4) && Has(shown, 4)))
    ensures Masked(shown) == 0 <==> !Has(shown, 1) && !Has(shown, 2) && !Has(shown, 4)
  {
  }

  class Client {
    const win: int
    var tags: Mask
    var isfloating: bool
    var next: Client?
    var snext: Client?
    var mon: Monitor

    constructor (win: int, mon: Monitor, tags: Mask, isfloating: bool)
      ensures this.win == win && this.mon == mon && this.tags == tags && this.isfloating == isfloating
    {
      this.win, this.mon, this.tags, this.isfloating := win, mon, tags, isfloating;
      next, snext := null, null;
    }

    /** ISVISIBLE */
    predicate Visible()
      reads this`tags, this`mon, mon`seltags, mon`tagset0, mon`tagset1
    {
      On(tags, mon.Shown())
    }
  }

  class Monitor {
    var seltags: bool
    var tagset0: Mask
    var tagset1: Mask
    var clients: Client?
    var sel: Client?
    var stack: Client?
    var next: Monitor?

    /** the client list and the focus stack as sequences */
    ghost var cs: seq<Client>
    ghost var st: seq<Client>

    /** createmon */
    constructor ()
      ensures Ok() && cs == [] && st == [] && next == null
    {
      seltags, tagset0, tagset1 := false, 1, 1;
      clients, sel, stack, next := null, null, null, null;
      cs, st := [], [];
    }

    /** tagset[seltags ^ 1] */
    function Hidden(): Mask
      reads this`seltags, this`tagset0, this`tagset1
    {
      if seltags then tagset0 else tagset1
    }

    /** tagset[seltags] */
    function Shown(): Mask
      reads this`seltags, this`tagset0, this`tagset1
    {
      if seltags then tagset1 else tagset0
    }

    ghost predicate ClientsLinked()
      reads this`clients, this`cs, cs`next
    {
      && clients == At(cs, 0)
      && NoDup(cs)
      && forall i | 0 <= i < |cs| :: cs[i].next == At(cs, i + 1)
    }

    ghost predicate StackLinked()
      reads this`stack, this`st, st`snext
    {
      && stack == At(st, 0)
      && NoDup(st)
      && forall i | 0 <= i < |st| :: st[i].snext == At(st, i + 1)
    }

    /** Each client of the monitor is once in each list, and in no other monitor's lists. */
    ghost predicate Members()
      reads this`cs, this`st, cs`mon, cs`tags
    {
      && (forall c | c in cs :: c in st && c.mon == this && Proper(c.tags))
      && (forall c | c in st :: c in cs)
    }

    ghost predicate Ok()
      reads this`clients, this`stack, this`sel, this`cs, this`st, this`tagset0, this`tagset1
      reads cs`next, st`snext, cs`mon, cs`tags
    {
      && ClientsLinked() && StackLinked() && Members()
      && Proper(tagset0) && Proper(tagset1)
      && (sel == null || sel in cs)
    }
  }

  function At(s: seq<Client>, i: nat): Client? {
    if i < |s| then s[i] else null
  }

  predicate NoDup<T(==)>(s: seq<T>) {
    forall i, j | 0 <= i < j < |s| :: s[i] != s[j]
  }

  function Without(s: seq<Client>, x: Client): (r: seq<Client>)
    ensures forall y | y in r :: y in s
    ensures forall y | y in s && y != x :: y in r
  {
    if s == [] then []
    else if s[0] == x then s[1..]
    else [s[0]] + Without(s[1..], x)
  }

  /** A focus stack after the client c, if any, has come to its top. */
  function Top(s: seq<Client>, c: Client?): (r: seq<Client>)
    ensures c == null ==> r == s
  {
    if c == null then s else [c] + Without(s, c)
  }

  lemma {:induction false} WithoutAt(s: seq<Client>, k: nat)
    requires k < |s| && NoDup(s)
    ensures Without(s, s[k]) == s[..k] + s[k + 1..]
  {
    if k > 0 {
      var t := s[1..];
      assert t[k - 1] == s[k] && s[0] != s[k];
      assert NoDup(t) by { assert forall i | 0 <= i < |t| :: t[i] == s[i + 1]; }
      WithoutAt(t, k - 1);
      assert [s[0]] + (t[..k - 1] + t[k..]) == s[..k] + s[k + 1..];
    }
  }

  /** The first client of a focus stack, from position i on, that one of the shown tags makes visible. */
  function FirstVisible(s: seq<Client>, shown: Mask, i: nat := 0): (c: Client?)
    reads s`tags
    ensures c == null ==> forall k | i <= k < |s| :: !On(s[k].tags, shown)
    ensures c != null ==> exists k | i <= k < |s| ::
      s[k] == c && On(c.tags, shown) && forall j | i <= j < k :: !On(s[j].tags, shown)
    decreases |s| - i
  {
    if i >= |s| then null else if On(s[i].tags, shown) then s[i] else FirstVisible(s, shown, i + 1)
  }

  /** What is selected on the monitor of c once c has left its stack. */
  ghost function Heir(c: Client): (r: Client?)
    reads c`mon, c.mon`sel, c.mon`st, c.mon`seltags, c.mon`tagset0, c.mon`tagset1, Without(c.mon.st, c)`tags
    ensures r == null || r in Without(c.mon.st, c) || (r == c.mon.sel && r != c)
  {
    if c == c.mon.sel then FirstVisible(Without(c.mon.st, c), c.mon.Shown()) else c.mon.sel
  }

  /** A client that is raised comes to the top, and the others keep their order. */
  lemma TopIs(s: seq<Client>, k: nat)
    requires k < |s| && NoDup(s)
    ensures Top(s, s[k]) == [s[k]] + s[..k] + s[k + 1..]
  {
    WithoutAt(s, k);
    hide Without;
    assert [s[k]] + (s[..k] + s[k + 1..]) == [s[k]] + s[..k] + s[k + 1..];
  }

  /** The selection stays unless it is the client that leaves; then the one focused last that shows has it. */
  lemma HeirIs(c: Client, k: nat)
    requires k < |c.mon.st| && c.mon.st[k] == c && NoDup(c.mon.st)
    ensures c != c.mon.sel ==> Heir(c) == c.mon.sel
    ensures c == c.mon.sel ==>
      var rest, shown := c.mon.st[..k] + c.mon.st[k + 1..], c.mon.Shown();
      if Heir(c) == null then forall d | d in rest :: !On(d.tags, shown)
      else exists j | 0 <= j < |rest| ::
        rest[j] == Heir(c) && On(rest[j].tags, shown) && forall i | 0 <= i < j :: !On(rest[i].tags, shown)
  {
    WithoutAt(c.mon.st, k);
    hide Without, On;
  }

  // ---------------------------------------------------------------------------------------------
  // attach, attachbottom, attachstack, detach, detachstack

  method Attach(c: Client)
    requires c.mon.ClientsLinked() && c !in c.mon.cs
    modifies c`next, c.mon`clients, c.mon`cs
    ensures c.mon.ClientsLinked() && c.mon.cs == [c] + old(c.mon.cs)
  {
    c.next := c.mon.clients;
    c.mon.clients := c;
    c.mon.cs := [c] + c.mon.cs;
  }

  method AttachBottom(c: Client)
    requires c.mon.ClientsLinked() && c !in c.mon.cs
    modifies c`next, c.mon`clients, c.mon`cs, c.mon.cs`next
    ensures c.mon.ClientsLinked() && c.mon.cs == old(c.mon.cs) + [c]
  {
    var m := c.mon;
    c.next := null;
    // tc walks over the places that hold a link; prev is the client of that link, null for m.clients
    var prev: Client?, i := null, 0;
    var cur := m.clients;
    while cur != null
      invariant 0 <= i <= |m.cs| && cur == At(m.cs, i)
      invariant prev == if i == 0 then null else m.cs[i - 1]
      decreases |m.cs| - i
    {
      prev, cur, i := cur, cur.next, i + 1;
    }
    if prev == null {
      m.clients := c;
    } else {
      prev.next := c;
    }
    m.cs := m.cs + [c];
  }

  method AttachStack(c: Client)
    requires c.mon.StackLinked() && c !in c.mon.st
    modifies c`snext, c.mon`stack, c.mon`st
    ensures c.mon.StackLinked() && c.mon.st == [c] + old(c.mon.st)
  {
    c.snext := c.mon.stack;
    c.mon.stack := c;
    c.mon.st := [c] + c.mon.st;
  }

  method Detach(c: Client)
    requires c.mon.ClientsLinked() && c in c.mon.cs
    modifies c.mon`clients, c.mon`cs, c.mon.cs`next
    ensures c.mon.ClientsLinked() && c.mon.cs == Without(old(c.mon.cs), c)
  {
    hide Without;
    var m := c.mon;
    ghost var cs := m.cs;
    var prev, i := LinkTo(c);
    WithoutAt(cs, i);
    CutAt(cs, i);
    if prev == null {
      m.clients := c.next;
    } else {
      prev.next := c.next;
    }
    m.cs := cs[..i] + cs[i + 1..];
  }

  /** The client whose `next` link leads to c, null for the head of the list; i is the place of c. */
  method LinkTo(c: Client) returns (prev: Client?, ghost i: nat)
    requires c.mon.ClientsLinked() && c in c.mon.cs
    ensures i < |c.mon.cs| && c.mon.cs[i] == c
    ensures prev == if i == 0 then null else c.mon.cs[i - 1]
  {
    prev, i := null, 0;
    ghost var cs := c.mon.cs;
    var cur := c.mon.clients;
    while cur != null && cur != c
      invariant i < |cs| && cur == cs[i]
      invariant prev == if i == 0 then null else cs[i - 1]
      invariant c !in cs[..i]
      decreases |cs| - i
    {
      assert c in cs[i..] && cs[i..] == [cs[i]] + cs[i + 1..];
      prev, cur, i := cur, cur.next, i + 1;
    }
  }

  /** The links of a list without its k-th client. */
  lemma CutAt(s: seq<Client>, k: nat)
    requires k < |s| && NoDup(s)
    ensures var r := s[..k] + s[k + 1..];
      && NoDup(r)
      && (forall i | 0 <= i < |r| :: r[i] == (if i < k then s[i] else s[i + 1]))
      && (forall i | 0 <= i <= |r| :: At(r, i) == if i < k then s[i] else At(s, i + 1))
  {
  }

  method DetachStack(c: Client)
    requires c.mon.StackLinked() && c in c.mon.st && forall d | d in c.mon.st :: d.mon == c.mon
    modifies c.mon`stack, c.mon`st, c.mon`sel, c.mon.st`snext
    ensures c.mon.StackLinked() && c.mon.st == Without(old(c.mon.st), c)
    ensures c.mon.sel == old(Heir(c))
  {
    hide On, FirstVisible, Without;
    Unstack(c);
    assert FirstVisible(c.mon.st, c.mon.Shown()) == old(FirstVisible(Without(c.mon.st, c), c.mon.Shown()));
    if c == c.mon.sel {
      var t := FirstShown(c.mon);
      c.mon.sel := t;
    }
  }

  /** The walk over the stack in focus and detachstack. */
  method FirstShown(m: Monitor) returns (c: Client?)
    requires m.StackLinked() && forall d | d in m.st :: d.mon == m
    ensures c == FirstVisible(m.st, m.Shown())
  {
    hide On;
    var i := 0;
    c := m.stack;
    while c != null && !c.Visible()
      invariant 0 <= i <= |m.st| && c == At(m.st, i)
      invariant FirstVisible(m.st, m.Shown()) == FirstVisible(m.st, m.Shown(), i)
      decreases |m.st| - i
    {
      c, i := c.snext, i + 1;
    }
  }

  /** First half of detachstack. */
  method Unstack(c: Client)
    requires c.mon.StackLinked() && c in c.mon.st
    modifies c.mon`stack, c.mon`st, c.mon.st`snext
    ensures c.mon.StackLinked() && c.mon.st == Without(old(c.mon.st), c)
  {
    hide Without;
    var m := c.mon;
    ghost var st := m.st;
    var prev, i := StackLinkTo(c);
    WithoutAt(st, i);
    CutAt(st, i);
    if prev == null {
      m.stack := c.snext;
    } else {
      prev.snext := c.snext;
    }
    m.st := st[..i] + st[i + 1..];
  }

  /** The client whose `snext` link leads to c, null for the top of the stack; i is the place of c. */
  method StackLinkTo(c: Client) returns (prev: Client?, ghost i: nat)
    requires c.mon.StackLinked() && c in c.mon.st
    ensures i < |c.mon.st| && c.mon.st[i] == c
    ensures prev == if i == 0 then null else c.mon.st[i - 1]
  {
    prev, i := null, 0;
    ghost var st := c.mon.st;
    var cur := c.mon.stack;
    while cur != null && cur != c
      invariant i < |st| && cur == st[i]
      invariant prev == if i == 0 then null else st[i - 1]
      invariant c !in st[..i]
      decreases |st| - i
    {
      assert c in st[i..] && st[i..] == [st[i]] + st[i + 1..];
      prev, cur, i := cur, cur.snext, i + 1;
    }
  }
}
