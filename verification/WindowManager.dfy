/**
  * The event handlers of dwm.c that manage clients, focus and monitors, over any run of events.
  */
module WindowManager {
  import opened ClientLists
  import MoveStack

  predicate MonNoDup(s: seq<Monitor>) {
    forall i, j | 0 <= i < j < |s| :: s[i] != s[j]
  }

  function MonAt(s: seq<Monitor>, i: nat): Monitor? {
    if i < |s| then s[i] else null
  }

  // ---------------------------------------------------------------------------------------------
  // One monitor: both lists changed together.

  /** detach and detachstack */
  method Unlink(c: Client)
    requires c.mon.Ok() && c in c.mon.cs
    modifies c.mon`clients, c.mon`stack, c.mon`sel, c.mon`cs, c.mon`st, c.mon.cs`next, c.mon.st`snext
    ensures c.mon.Ok()
    ensures c.mon.cs == Without(old(c.mon.cs), c) && c.mon.st == Without(old(c.mon.st), c)
    ensures c.mon.sel == old(Heir(c))
    ensures forall d :: d in c.mon.cs <==> d in old(c.mon.cs) && d != c
    ensures forall d :: d in c.mon.st <==> d in old(c.mon.st) && d != c
  {
    hide Heir, FirstVisible, On, Without, Proper, Monitor.ClientsLinked, Monitor.StackLinked;
    ListsDrop(c.mon, c);
    Detach(c);
    DetachStack(c);
  }

  lemma WithoutDrops(s: seq<Client>, c: Client)
    requires NoDup(s) && c in s
    ensures c !in Without(s, c) && NoDup(Without(s, c)) && |Without(s, c)| == |s| - 1
  {
    var k :| 0 <= k < |s| && s[k] == c;
    WithoutAt(s, k);
  }

  lemma ListsDrop(m: Monitor, c: Client)
    requires m.Ok() && c in m.cs
    ensures c !in Without(m.cs, c) && c !in Without(m.st, c)
  {
    hide Heir, FirstVisible, On, Without, Proper;
    WithoutDrops(m.cs, c);
    WithoutDrops(m.st, c);
  }

  /** attachbottom and attachstack of a client that is in no list */
  method Link(c: Client)
    requires c.mon.Ok() && c !in c.mon.cs && c !in c.mon.st && Proper(c.tags)
    modifies c`next, c`snext, c.mon`clients, c.mon`stack, c.mon`cs, c.mon`st, c.mon.cs`next
    ensures c.mon.Ok()
    ensures c.mon.cs == old(c.mon.cs) + [c] && c.mon.st == [c] + old(c.mon.st)
  {
    hide Heir, FirstVisible, On, Proper, Monitor.ClientsLinked, Monitor.StackLinked;
    AttachBottom(c);
    AttachStack(c);
  }

  /** attach and attachstack of a client that is in no list */
  method LinkTop(c: Client)
    requires c.mon.Ok() && c !in c.mon.cs && c !in c.mon.st && Proper(c.tags)
    modifies c`next, c`snext, c.mon`clients, c.mon`stack, c.mon`cs, c.mon`st
    ensures c.mon.Ok()
    ensures c.mon.cs == [c] + old(c.mon.cs) && c.mon.st == [c] + old(c.mon.st)
  {
    hide Heir, FirstVisible, On, Proper, Monitor.ClientsLinked, Monitor.StackLinked;
    Attach(c);
    AttachStack(c);
  }

  /** detachstack and attachstack: the client comes to the top of the focus stack */
  method Raise(c: Client)
    requires c.mon.Ok() && c in c.mon.cs
    modifies c`snext, c.mon`stack, c.mon`sel, c.mon`st, c.mon.st`snext
    ensures c.mon.Ok()
    ensures c.mon.st == [c] + Without(old(c.mon.st), c)
  {
    hide Heir, FirstVisible, On, Without, Proper, Monitor.ClientsLinked, Monitor.StackLinked;
    ListsDrop(c.mon, c);
    DetachStack(c);
    AttachStack(c);
  }

  /** What a monitor's lists are does not change while none of their objects does. */
  twostate lemma OkKept(x: Monitor)
    requires old(x.Ok()) && unchanged(x) && (forall c | c in x.cs :: unchanged(c))
    ensures x.Ok()
  {
    assert forall i | 0 <= i < |x.cs| :: x.cs[i] in x.cs;
    assert forall i | 0 <= i < |x.st| :: x.st[i] in x.cs;
  }

  /** A client that is in no list changes its monitor and tags. */
  method Relabel(c: Client, ghost from: Monitor, m: Monitor)
    requires from.Ok() && m.Ok() && c !in from.cs && c !in m.cs
    modifies c`mon, c`tags
    ensures from.Ok() && m.Ok() && c.mon == m && c.tags == m.Shown() && Proper(c.tags)
  {
    hide Heir, FirstVisible, On, Without, Proper, Monitor.ClientsLinked, Monitor.StackLinked;
    c.mon, c.tags := m, m.Shown();
  }

  /** A client leaves its monitor and joins m, whose tags it gets. */
  method MoveTo(c: Client, m: Monitor)
    requires c.mon.Ok() && m.Ok() && c in c.mon.cs && m != c.mon
    modifies c`next, c`snext, c`mon, c`tags
    modifies c.mon`clients, c.mon`stack, c.mon`sel, c.mon`cs, c.mon`st, c.mon.cs`next, c.mon.st`snext
    modifies m`clients, m`stack, m`cs, m`st, m.cs`next
    ensures m.Ok() && old(c.mon).Ok() && c.mon == m && c.tags == m.Shown()
    ensures m.cs == old(m.cs) + [c] && m.st == [c] + old(m.st)
    ensures old(c.mon).cs == Without(old(c.mon.cs), c) && old(c.mon).st == Without(old(c.mon.st), c)
    ensures forall d :: d in old(c.mon).cs <==> d in old(c.mon.cs) && d != c
    ensures forall d :: d in old(c.mon).st <==> d in old(c.mon.st) && d != c
    ensures old(c.mon).sel == old(Heir(c))
  {
    hide Heir, FirstVisible, On, Without, Proper, Monitor.ClientsLinked, Monitor.StackLinked;
    ghost var from := c.mon;
    Leave(c, m);
    label L:
    assert forall d | d in from.cs :: d !in m.cs && d !in m.st;
    Link(c);
    OkKept@L(from);
  }

  /** The first part of a move: the client is in no list. */
  method Leave(c: Client, m: Monitor)
    requires c.mon.Ok() && m.Ok() && c in c.mon.cs && m != c.mon
    modifies c`mon, c`tags
    modifies c.mon`clients, c.mon`stack, c.mon`sel, c.mon`cs, c.mon`st, c.mon.cs`next, c.mon.st`snext
    ensures m.Ok() && old(c.mon).Ok() && c.mon == m && c.tags == m.Shown() && Proper(c.tags)
    ensures c !in m.cs && c !in m.st
    ensures old(c.mon).cs == Without(old(c.mon.cs), c) && old(c.mon).st == Without(old(c.mon.st), c)
    ensures forall d :: d in old(c.mon).cs <==> d in old(c.mon.cs) && d != c
    ensures forall d :: d in old(c.mon).st <==> d in old(c.mon.st) && d != c
    ensures old(c.mon).sel == old(Heir(c))
  {
    hide Heir, FirstVisible, On, Without, Proper, Monitor.ClientsLinked, Monitor.StackLinked;
    ghost var from := c.mon;
    assert c !in m.cs && c !in m.st;
    assert forall d | d in m.cs :: d !in from.cs && d !in from.st;
    Unlink(c);
    OkKept(m);
    Relabel(c, from, m);
  }

  /** The first client of m moves to the front of both lists of another monitor, with its tags. */
  method MoveHead(m: Monitor, to: Monitor)
    requires m.Ok() && to.Ok() && m != to && m.cs != []
    modifies m.cs`next, m.cs`snext, m.cs`mon
    modifies m`clients, m`stack, m`sel, m`cs, m`st, m.st`snext
    modifies to`clients, to`stack, to`cs, to`st
    ensures m.Ok() && to.Ok() && old(m.cs)[0].mon == to
    ensures m.cs == old(m.cs)[1..] && to.cs == [old(m.cs)[0]] + old(to.cs)
    ensures m.st == Without(old(m.st), old(m.cs)[0]) && to.st == [old(m.cs)[0]] + old(to.st)
    ensures forall d :: d in m.cs <==> d in old(m.cs) && d != old(m.cs)[0]
    ensures forall d | d in m.cs :: d.mon == m
  {
    hide Heir, FirstVisible, On, Without, Proper, Monitor.ClientsLinked, Monitor.StackLinked;
    assert forall d | d in to.cs :: d !in m.cs && d !in m.st;
    var c := DropHead(m);
    OkKept(to);
    Rehome(c, m, to);
    label L:
    assert forall d | d in m.cs :: d !in to.cs && d !in to.st;
    LinkTop(c);
    OkKept@L(m);
  }

  method DropHead(m: Monitor) returns (c: Client)
    requires m.Ok() && m.cs != []
    modifies m`clients, m`stack, m`sel, m`cs, m`st, m.st`snext
    ensures m.Ok() && c == old(m.cs[0]) && c.mon == m && Proper(c.tags)
    ensures m.cs == old(m.cs)[1..] && m.st == Without(old(m.st), c)
    ensures forall d :: d in m.cs <==> d in old(m.cs) && d != c
    ensures forall d :: d in m.st <==> d in old(m.st) && d != c
  {
    hide Heir, FirstVisible, On, Without, Proper, Monitor.ClientsLinked, Monitor.StackLinked;
    ListsDrop(m, m.cs[0]);
    c := CutHead(m);
    DetachStack(c);
  }

  method CutHead(m: Monitor) returns (c: Client)
    requires m.ClientsLinked() && m.cs != []
    modifies m`clients, m`cs
    ensures m.ClientsLinked() && c == old(m.cs[0]) && m.cs == old(m.cs)[1..]
    ensures forall d :: d in m.cs <==> d in old(m.cs) && d != c
  {
    c := m.clients;
    assert m.cs == [c] + m.cs[1..];
    m.clients := c.next;
    m.cs := m.cs[1..];
  }

  /** A client that is in no list changes its monitor. */
  method Rehome(c: Client, ghost from: Monitor, m: Monitor)
    requires from.Ok() && m.Ok() && c !in from.cs && c !in m.cs
    modifies c`mon
    ensures from.Ok() && m.Ok() && c.mon == m
  {
    hide Heir, FirstVisible, On, Without, Proper, Monitor.ClientsLinked, Monitor.StackLinked;
    c.mon := m;
  }

  function Reverse(s: seq<Client>): seq<Client> {
    if s == [] then [] else Reverse(s[1..]) + [s[0]]
  }

  /** A client at place k comes to the place as far from the end. */
  lemma {:induction false} ReverseAt(s: seq<Client>, k: nat)
    requires k < |s|
    ensures |Reverse(s)| == |s| && Reverse(s)[|s| - 1 - k] == s[k]
    decreases |s|
  {
    if |s| == 1 {
      assert Reverse(s[1..]) == [];
    } else {
      ReverseAt(s[1..], if k > 0 then k - 1 else 0);
    }
  }

  lemma ReverseNone(t: seq<Client>)
    ensures Reverse([]) + t == t
  {
  }

  lemma {:induction false} ReverseMore(s: seq<Client>, c: Client, t: seq<Client>)
    ensures Reverse(s + [c]) + t == [c] + (Reverse(s) + t)
  {
    if s != [] {
      assert (s + [c])[1..] == s[1..] + [c];
      ReverseMore(s[1..], c, []);
      assert Reverse(s[1..] + [c]) + [] == Reverse(s[1..] + [c]);
      assert Reverse(s + [c]) == Reverse(s[1..] + [c]) + [s[0]];
    }
  }

  lemma {:induction false} ReverseHas(s: seq<Client>)
    ensures forall c | c in s :: c in Reverse(s)
  {
    if s != [] {
      ReverseHas(s[1..]);
      assert s == [s[0]] + s[1..];
    }
  }

  /** The search of one monitor in wintoclient. */
  method FindWin(m: Monitor, w: int) returns (c: Client?)
    requires m.ClientsLinked()
    ensures c == null ==> forall d | d in m.cs :: d.win != w
    ensures c != null ==> c in m.cs && c.win == w
  {
    var i := 0;
    c := m.clients;
    while c != null && c.win != w
      invariant 0 <= i <= |m.cs| && c == At(m.cs, i)
      invariant forall j | 0 <= j < i :: m.cs[j].win != w
      decreases |m.cs| - i
    {
      c, i := c.next, i + 1;
    }
  }

  /** The raised client is selected. */
  method RaiseSelect(c: Client)
    requires c.mon.Ok() && c in c.mon.cs
    modifies c`snext, c.mon`stack, c.mon`sel, c.mon`st, c.mon.st`snext
    ensures c.mon.Ok() && c.mon.sel == c && c.mon.st == Top(old(c.mon.st), c)
  {
    hide Heir, FirstVisible, On, Without, Proper, Monitor.ClientsLinked, Monitor.StackLinked;
    Raise(c);
    c.mon.sel := c;
  }

  /** detach and attach: the client comes to the head of the list */
  method MoveFront(c: Client)
    requires c.mon.Ok() && c in c.mon.cs
    modifies c`next, c.mon`clients, c.mon`cs, c.mon.cs`next
    ensures c.mon.Ok() && c.mon.cs == [c] + Without(old(c.mon.cs), c)
  {
    hide Heir, FirstVisible, On, Without, Proper, Monitor.ClientsLinked, Monitor.StackLinked;
    ListsDrop(c.mon, c);
    Detach(c);
    Attach(c);
  }

  lemma TopFirst(s: seq<Client>, c: Client, shown: Mask)
    requires On(c.tags, shown)
    ensures FirstVisible(Top(s, c), shown) == c
  {
    hide On, Without;
  }

  lemma MaskedProper(ui: Mask)
    ensures Masked(ui) != 0 ==> Proper(Masked(ui))
  {
  }

  lemma ToggledProper(t: Mask, ui: Mask)
    requires Proper(t) && Toggled(t, ui) != 0
    ensures Proper(Toggled(t, ui))
  {
  }

  // ---------------------------------------------------------------------------------------------
  // The window manager.

  /** What happens to the window manager, with what the X server says as parameters. */
  datatype Event =
    | Map(win: int, hint: bool, trans: int, rule: Mask, ruleMon: nat, isfloating: bool)
    | Unmap(win: int)
    | FocusWin(win: int)
    | PopWin(win: int)
    | SendWin(win: int, mon: nat)
    | TagKey(ui: Mask)
    | ToggleTagKey(ui: Mask)
    | ViewKey(ui: Mask)
    | ToggleViewKey(ui: Mask)
    | TagMonKey(dir: int)
    | FocusMonKey(dir: int)
    | MoveKey(dir: int)
    | Geometry(nn: nat, moved: bool, resized: bool, pointer: nat)
  {
    /** With n monitors: none is taken away, or the geometry changes, which chooses the focus anew. */
    predicate Refocuses(n: nat) {
      Geometry? ==> moved || resized || nn >= n
    }
  }

  /** The clients of monitors. */
  ghost function ListsOf(ms: seq<Monitor>): (r: seq<seq<Client>>)
    reads ms`cs
    ensures |r| == |ms| && forall i | 0 <= i < |ms| :: r[i] == ms[i].cs
  {
    if ms == [] then [] else ListsOf(ms[..|ms| - 1]) + [ms[|ms| - 1].cs]
  }

  predicate SomeFrom(lists: seq<seq<Client>>, n: nat) {
    exists k :: n <= k < |lists| && lists[k] != []
  }

  lemma SomeStep(lists: seq<seq<Client>>, n: nat)
    requires n < |lists|
    ensures SomeFrom(lists, n) <==> lists[n] != [] || SomeFrom(lists, n + 1)
    ensures !SomeFrom(lists, |lists|)
  {
  }

  /** No event of a run that starts with n monitors takes monitors away without a change of geometry. */
  predicate Refocusing(n: nat, es: seq<Event>)
    decreases |es|
  {
    es == [] || (es[0].Refocuses(n) && Refocusing(if es[0].Geometry? then es[0].nn else n, es[1..]))
  }

  class Wm {
    var mons: Monitor
    var selmon: Monitor
    /** the monitors in list order */
    ghost var ms: seq<Monitor>
    /** the managed clients */
    ghost var all: set<Client>

    /** updategeom's first monitor */
    constructor ()
      ensures Valid() && all == {} && |ms| == 1 && fresh(ms[0])
    {
      var m := new Monitor();
      mons, selmon, ms, all := m, m, [m], {};
    }

    ghost predicate MonsLinked()
      reads this`mons, this`selmon, this`ms, ms`next
    {
      && |ms| > 0 && mons == ms[0] && selmon in ms && MonNoDup(ms)
      && forall i | 0 <= i < |ms| :: ms[i].next == MonAt(ms, i + 1)
    }

    ghost predicate Within(m: Monitor)
      reads this`all, m`cs, m`st
    {
      (forall c | c in m.cs :: c in all) && forall c | c in m.st :: c in all
    }

    /** The clients on the monitors are the managed ones, each on its own monitor. */
    ghost predicate Owned()
      reads this`ms, this`all, ms`cs, ms`st, all`mon
    {
      && (forall m | m in ms :: Within(m))
      && (forall c | c in all :: c.mon in ms && c in c.mon.cs)
      && (forall c, d | c in all && d in all && c.win == d.win :: c == d)
    }

    /**
      * The managed-client invariant: every client is once in the client list and once in the focus stack
      * of its own monitor and in no other list, its tags are nonempty and within TAGMASK, and the selected
      * client of every monitor is null or one of its clients.
      */
    ghost predicate Valid()
      reads this, ms, all
    {
      MonsLinked() && Owned() && forall m | m in ms :: m.Ok()
    }

    /** The focus is on the first visible client of the selected monitor's stack. */
    ghost predicate Settled()
      reads this`selmon, selmon`sel, selmon`st, selmon`seltags, selmon`tagset0, selmon`tagset1, selmon.st`tags
    {
      selmon.sel == FirstVisible(selmon.st, selmon.Shown())
    }

    /**
      * The selected client of the selected monitor is the first visible one in stack order; it has come to
      * the top of the stack, which was st before.
      */
    ghost predicate FocusedFrom(st: seq<Client>)
      reads this`selmon, selmon`sel, selmon`st, selmon`seltags, selmon`tagset0, selmon`tagset1
      reads st`tags, selmon.st`tags
    {
      && selmon.sel == FirstVisible(st, selmon.Shown())
      && selmon.st == Top(st, selmon.sel)
      && Settled()
    }

    /** wintoclient */
    method WinToClient(w: int) returns (c: Client?)
      requires Valid()
      ensures c == null ==> forall d | d in all :: d.win != w
      ensures c != null ==> c in all && c.win == w
    {
      hide Valid, Owned, Monitor.StackLinked, Monitor.Members, On, Proper;
      Basics();
      var m: Monitor?, i := mons, 0;
      while m != null
        invariant 0 <= i <= |ms| && m == MonAt(ms, i)
        invariant forall j, d | 0 <= j < i && d in ms[j].cs :: d.win != w
        decreases |ms| - i
      {
        OnMonitor(m);
        c := FindWin(m, w);
        if c != null {
          return c;
        }
        m, i := m.next, i + 1;
      }
      forall d | d in all ensures d.win != w {
        Mine(d);
      }
      c := null;
    }

    /** A step that changes only some monitors and their clients keeps the invariant if it keeps theirs. */
    twostate lemma Local(touched: set<Monitor>)
      requires old(Valid()) && MonsLinked()
      requires forall m | m in ms && m !in touched :: m in old(ms) && unchanged(m)
      requires forall m | m in ms && m in touched :: m.Ok() && Within(m)
      requires forall c | c in old(all) && old(c.mon) !in touched :: c in all && unchanged(c)
      requires forall c | c in all ::
        c.mon in ms && ((c in old(all) && old(c.mon) !in touched) || (c.mon in touched && c in c.mon.cs))
      requires forall c, d | c in all && d in all && c.win == d.win :: c == d
      ensures Valid()
    {
      hide Heir, FirstVisible, On, Without, Proper;
      forall x | x in ms && x !in touched ensures x.Ok() && Within(x) {
        assert old(x.Ok());
        forall c | c in x.cs ensures c in all && unchanged(c) {
          assert old(c.mon) == x;
        }
        OkKept(x);
      }
    }

    /** A step on one monitor that reorders its lists, drops clients from it or changes its selection and tags. */
    twostate lemma LocalOne(m: Monitor)
      requires old(Valid()) && mons == old(mons) && ms == old(ms) && all <= old(all)
      requires m in ms && selmon in ms && m.next == old(m.next) && m.Ok() && Within(m)
      requires forall x | x in ms && x != m :: unchanged(x)
      requires forall c | c in old(all) :: c.mon == old(c.mon) && (c.mon == m || (c in all && unchanged(c)))
      requires forall c | c in all && c.mon == m :: c in m.cs
      ensures Valid()
    {
      hide Heir, FirstVisible, On, Without, Proper, Monitor.Ok;
      assert forall i | 0 <= i < |ms| :: ms[i] in ms && (ms[i] != m ==> unchanged(ms[i]));
      Local({m});
    }

    /** A client is raised in its stack and selected. */
    method FocusClient(c: Client)
      requires Valid() && c in all
      modifies this`selmon, c`snext, c.mon`stack, c.mon`sel, c.mon`st, c.mon.st`snext
      ensures Valid() && selmon == c.mon
      ensures forall m | m in ms :: m.sel == if m == selmon then c else old(m.sel)
      ensures forall m | m in ms :: m.st == if m == selmon then Top(old(m.st), c) else old(m.st)
    {
      hide Heir, FirstVisible, On, Without, Top, Proper, Valid, Owned, MonsLinked, Monitor.ClientsLinked,
        Monitor.StackLinked;
      Mine(c);
      var m := c.mon;
      if m != selmon {
        selmon := m;
      }
      RaiseSelect(c);
      LocalOne(m);
    }

    /** Nothing is selected on the selected monitor. */
    method FocusNone()
      requires Valid()
      modifies selmon`sel
      ensures Valid()
      ensures forall m | m in ms :: m.sel == if m == selmon then null else old(m.sel)
    {
      hide Heir, FirstVisible, On, Without, Proper;
      assert selmon.Ok();
      selmon.sel := null;
      assert selmon.Ok();
      LocalOne(selmon);
    }

    /** The client that focus turns to. */
    method Target(c0: Client?) returns (c: Client?)
      requires Valid() && (c0 == null || c0 in all)
      ensures c == if c0 != null && c0.Visible() then c0 else FirstVisible(selmon.st, selmon.Shown())
      ensures c != null ==> c in all && c.mon in ms && c in c.mon.cs && On(c.tags, c.mon.Shown())
      ensures selmon in ms
      ensures c != null ==> forall d | d in c.mon.st :: d in all
    {
      hide On, Without, Proper, Monitor.ClientsLinked;
      c := c0;
      assert selmon.Ok();
      if c0 == null || !c0.Visible() {
        c := FirstShown(selmon);
      }
    }

    /** focus; picked is the client that gets the focus */
    method Focus(c0: Client?) returns (ghost picked: Client?)
      requires Valid() && (c0 == null || c0 in all)
      modifies this`selmon, ms`sel, ms`stack, ms`st, all`snext
      ensures Valid()
      ensures picked == old(if c0 != null && c0.Visible() then c0 else FirstVisible(selmon.st, selmon.Shown()))
      ensures selmon == if picked == null then old(selmon) else picked.mon
      ensures picked != null ==> picked in all && picked in selmon.cs && On(picked.tags, selmon.Shown())
      ensures Settled()
      ensures forall m | m in old(ms) :: m.sel == if m == selmon then picked else old(m.sel)
      ensures forall m | m in old(ms) :: m.st == if m == selmon then Top(old(m.st), picked) else old(m.st)
    {
      hide Heir, FirstVisible, On, Without, Top, Proper, Monitor.Ok, MonsLinked, Owned, Valid, Monitor.ClientsLinked,
        Monitor.StackLinked, Monitor.Members;
      var c := Target(c0);
      picked := c;
      if c != null {
        FocusClient(c);
        TopFirst(old(c.mon.st), c, c.mon.Shown());
      } else {
        FocusNone();
      }
    }

    /** focus(NULL) */
    method Refocus()
      requires Valid()
      modifies this`selmon, ms`sel, ms`stack, ms`st, all`snext
      ensures Valid() && selmon == old(selmon) && FocusedFrom(old(selmon.st))
      ensures forall m | m in old(ms) && m != selmon :: m.st == old(m.st) && m.sel == old(m.sel)
    {
      hide Heir, On, Without, Top, Proper, Monitor.Ok, MonsLinked, Owned, Valid;
      Basics();
      OnMonitor(selmon);
      ghost var picked := Focus(null);
    }

    // -------------------------------------------------------------------------------------------
    // Tags and views

    method SetTags(c: Client, t: Mask)
      requires Valid() && c in all && Proper(t)
      modifies c`tags
      ensures Valid() && c.tags == t
    {
      hide Heir, FirstVisible, On, Without, Proper, Monitor.ClientsLinked, Monitor.StackLinked;
      assert c.mon.Ok();
      c.tags := t;
      assert c.mon.Ok();
      LocalOne(c.mon);
    }

    /** tag */
    method Tag(ui: Mask)
      requires Valid()
      modifies this`selmon, ms`sel, ms`stack, ms`st, all`snext, all`tags
      ensures Valid() && selmon == old(selmon)
      ensures old(selmon.sel) != null && Masked(ui) != 0 ==>
        && old(selmon.sel).tags == Masked(ui)
        && (forall c | c in all && c != old(selmon.sel) :: c.tags == old(c.tags))
        && FocusedFrom(old(selmon.st))
      ensures old(selmon.sel) == null || Masked(ui) == 0 ==>
        && (forall c | c in all :: c.tags == old(c.tags))
        && selmon.sel == old(selmon.sel) && selmon.st == old(selmon.st)
      ensures forall m | m in old(ms) && m != selmon :: m.st == old(m.st) && m.sel == old(m.sel)
    {
      hide Heir, FirstVisible, On, Without, Top, Proper, Masked, FocusedFrom, Monitor.ClientsLinked,
        Monitor.StackLinked;
      if selmon.sel != null && Masked(ui) != 0 {
        assert selmon.Ok();
        MaskedProper(ui);
        SetTags(selmon.sel, Masked(ui));
        Refocus();
      }
    }

    /** toggletag */
    method ToggleTag(ui: Mask)
      requires Valid()
      modifies this`selmon, ms`sel, ms`stack, ms`st, all`snext, all`tags
      ensures Valid() && selmon == old(selmon)
      ensures old(selmon.sel) != null && Toggled(old(selmon.sel.tags), ui) != 0 ==>
        && old(selmon.sel).tags == Toggled(old(selmon.sel.tags), ui)
        && (forall c | c in all && c != old(selmon.sel) :: c.tags == old(c.tags))
        && FocusedFrom(old(selmon.st))
      ensures old(selmon.sel) == null || Toggled(old(selmon.sel.tags), ui) == 0 ==>
        && (forall c | c in all :: c.tags == old(c.tags))
        && selmon.sel == old(selmon.sel) && selmon.st == old(selmon.st)
      ensures forall m | m in old(ms) && m != selmon :: m.st == old(m.st) && m.sel == old(m.sel)
    {
      hide Heir, FirstVisible, On, Without, Top, Proper, Masked, Toggled, FocusedFrom, Monitor.ClientsLinked,
        Monitor.StackLinked;
      if selmon.sel == null {
        return;
      }
      assert selmon.Ok();
      var newtags := Toggled(selmon.sel.tags, ui);
      if newtags != 0 {
        ToggledProper(selmon.sel.tags, ui);
        SetTags(selmon.sel, newtags);
        Refocus();
      }
    }

    method SetShown(sel: bool, t: Mask)
      requires Valid() && Proper(t)
      modifies selmon`seltags, selmon`tagset0, selmon`tagset1
      ensures Valid() && selmon.Shown() == t
      ensures selmon.Hidden() == if sel == old(selmon.seltags) then old(selmon.Hidden()) else old(selmon.Shown())
    {
      hide Heir, FirstVisible, On, Without, Top, Proper, Masked, Toggled, FocusedFrom, Monitor.ClientsLinked,
        Monitor.StackLinked;
      assert selmon.Ok();
      selmon.seltags := sel;
      if sel {
        selmon.tagset1 := t;
      } else {
        selmon.tagset0 := t;
      }
      assert selmon.Ok();
      LocalOne(selmon);
    }

    /** view: the tags shown before can be brought back by view(0) */
    method View(ui: Mask)
      requires Valid()
      modifies this`selmon, ms`sel, ms`stack, ms`st, all`snext, ms`seltags, ms`tagset0, ms`tagset1
      ensures Valid() && selmon == old(selmon)
      ensures Masked(ui) != old(selmon.Shown()) ==>
        && selmon.Shown() == (if Masked(ui) == 0 then old(selmon.Hidden()) else Masked(ui))
        && selmon.Hidden() == old(selmon.Shown())
        && FocusedFrom(old(selmon.st))
      ensures Masked(ui) == old(selmon.Shown()) ==>
        && selmon.Shown() == old(selmon.Shown()) && selmon.Hidden() == old(selmon.Hidden())
        && selmon.sel == old(selmon.sel) && selmon.st == old(selmon.st)
      ensures forall m | m in old(ms) && m != selmon ::
        m.st == old(m.st) && m.sel == old(m.sel) && m.Shown() == old(m.Shown()) && m.Hidden() == old(m.Hidden())
    {
      hide Heir, FirstVisible, On, Without, Top, Proper, Masked, Toggled, FocusedFrom, Monitor.ClientsLinked,
        Monitor.StackLinked;
      if Masked(ui) == selmon.Shown() {
        return;
      }
      MaskedProper(ui);
      assert selmon.Ok();
      SetShown(!selmon.seltags, if Masked(ui) != 0 then Masked(ui) else selmon.Hidden());
      Refocus();
    }

    /** toggleview */
    method ToggleView(ui: Mask)
      requires Valid()
      modifies this`selmon, ms`sel, ms`stack, ms`st, all`snext, ms`seltags, ms`tagset0, ms`tagset1
      ensures Valid() && selmon == old(selmon) && selmon.Hidden() == old(selmon.Hidden())
      ensures Toggled(old(selmon.Shown()), ui) != 0 ==>
        && selmon.Shown() == Toggled(old(selmon.Shown()), ui)
        && FocusedFrom(old(selmon.st))
      ensures Toggled(old(selmon.Shown()), ui) == 0 ==>
        selmon.Shown() == old(selmon.Shown()) && selmon.sel == old(selmon.sel) && selmon.st == old(selmon.st)
      ensures forall m | m in old(ms) && m != selmon ::
        m.st == old(m.st) && m.sel == old(m.sel) && m.Shown() == old(m.Shown()) && m.Hidden() == old(m.Hidden())
    {
      hide Heir, FirstVisible, On, Without, Top, Proper, Masked, Toggled, FocusedFrom, Monitor.ClientsLinked,
        Monitor.StackLinked;
      assert selmon.Ok();
      var newtagset := Toggled(selmon.Shown(), ui);
      if newtagset != 0 {
        ToggledProper(selmon.Shown(), ui);
        SetShown(selmon.seltags, newtagset);
        Refocus();
      }
    }

    lemma OnMonitor(m: Monitor)
      requires Valid() && m in ms
      ensures m.Ok() && MonsLinked()
      ensures forall d | d in m.cs :: d in all && d.mon == m
      ensures forall d | d in m.st :: d in all && d.mon == m
      ensures forall d | d in all && d.mon == m :: d in m.cs && d in m.st
    {
      hide Monitor.ClientsLinked, Monitor.StackLinked, On, Proper;
      assert m.Ok();
    }

    lemma Mine(c: Client)
      requires Valid() && c in all
      ensures selmon in ms && c.mon in ms && c.mon.Ok() && c in c.mon.cs && c in c.mon.st
      ensures forall d | d in c.mon.cs :: d in all && d.mon == c.mon
      ensures forall d | d in c.mon.st :: d in all && d.mon == c.mon
      ensures forall d | d in all && d.mon == c.mon :: d in c.mon.cs && d in c.mon.st
    {
      hide Monitor.ClientsLinked, Monitor.StackLinked, On, Proper;
      assert c.mon.Ok();
    }

    // -------------------------------------------------------------------------------------------
    // Clients come, go and move

    /** pop */
    method Pop(c: Client) returns (ghost picked: Client?)
      requires Valid() && c in all
      modifies this`selmon, ms`sel, ms`stack, ms`st, ms`clients, ms`cs, all`snext, all`next
      ensures Valid()
      ensures forall m | m in old(ms) :: m.cs == if m == c.mon then [c] + Without(old(m.cs), c) else old(m.cs)
      ensures Settled()
      ensures picked == old(if c.Visible() then c else FirstVisible(selmon.st, selmon.Shown()))
      ensures selmon == if picked == null then old(selmon) else picked.mon
      ensures forall m | m in old(ms) :: m.sel == if m == selmon then picked else old(m.sel)
      ensures forall m | m in old(ms) :: m.st == if m == selmon then Top(old(m.st), picked) else old(m.st)
    {
      hide Settled, Valid, Owned, MonsLinked, Monitor.Ok, Monitor.Members, FirstVisible, On, Without, Top, Proper,
        Masked, Toggled, FocusedFrom, Monitor.ClientsLinked, Monitor.StackLinked;
      Mine(c);
      ToFront(c);
      picked := Focus(c);
    }

    /** detach and attach */
    method ToFront(c: Client)
      requires Valid() && c in all
      modifies c`next, c.mon`clients, c.mon`cs, c.mon.cs`next
      ensures Valid() && c.mon.cs == [c] + Without(old(c.mon.cs), c)
    {
      hide Heir, FirstVisible, On, Without, Top, Proper, Masked, Toggled, FocusedFrom, Monitor.ClientsLinked,
        Monitor.StackLinked;
      assert c.mon.Ok();
      MoveFront(c);
      LocalOne(c.mon);
    }

    /** unmanage */
    method Unmanage(c: Client)
      requires Valid() && c in all
      modifies this`selmon, this`all, ms`sel, ms`stack, ms`st, ms`clients, ms`cs, all`snext, all`next
      ensures Valid() && all == old(all) - {c} && selmon == old(selmon)
      ensures forall m | m in old(ms) :: m.cs == if m == c.mon then Without(old(m.cs), c) else old(m.cs)
      ensures FocusedFrom(if c.mon == selmon then Without(old(selmon.st), c) else old(selmon.st))
      ensures forall m | m in old(ms) && m != selmon :: m.st == if m == c.mon then Without(old(m.st), c) else old(m.st)
      ensures forall m | m in old(ms) && m != selmon ::
        m.sel == if m == c.mon then old(Heir(c)) else old(m.sel)
    {
      hide Valid, Owned, MonsLinked, Monitor.Ok, Monitor.Members, FirstVisible, On, Without, Top, Proper, Masked,
        Toggled, FocusedFrom, Monitor.ClientsLinked, Monitor.StackLinked;
      Mine(c);
      Drop(c);
      Refocus();
    }

    /** detach and detachstack of a client that goes away */
    method Drop(c: Client)
      requires Valid() && c in all
      modifies this`all, c.mon`clients, c.mon`stack, c.mon`sel, c.mon`cs, c.mon`st, c.mon.cs`next, c.mon.st`snext
      ensures Valid() && all == old(all) - {c}
      ensures c.mon.cs == Without(old(c.mon.cs), c) && c.mon.st == Without(old(c.mon.st), c)
      ensures c.mon.sel == old(Heir(c))
    {
      hide Heir, FirstVisible, On, Without, Top, Proper, Masked, Toggled, FocusedFrom, Monitor.ClientsLinked,
        Monitor.StackLinked;
      hide Monitor.Ok, Monitor.Members, Valid, Owned, MonsLinked;
      Mine(c);
      Unlink(c);
      all := all - {c};
      LocalOne(c.mon);
    }

    /** What applyrules makes of the tags of the matching rules. */
    static function RuleTags(rule: Mask, shown: Mask): Mask {
      if Masked(rule) != 0 then Masked(rule) else shown
    }

    /**
      * manage, with what the X server and the rules say about the window as inputs: hint and trans are its
      * transient-for hint, rule the tags of the rules that match, ruleMon the monitor that they name.
      */
    method Manage(win: int, hint: bool, trans: int, rule: Mask, ruleMon: Monitor?, isfloating: bool) returns (c: Client)
      requires Valid() && (ruleMon == null || ruleMon in ms) && forall d | d in all :: d.win != win
      modifies this`selmon, this`all, ms`sel, ms`stack, ms`st, ms`clients, ms`cs, all`snext, all`next
      ensures Valid() && selmon == old(selmon) && all == old(all) + {c} && fresh(c) && c.win == win
      ensures !(exists t | t in old(all) :: hint && t.win == trans) ==>
        c.mon == (if ruleMon == null then selmon else ruleMon) && c.tags == RuleTags(rule, c.mon.Shown())
      ensures forall t | t in old(all) && hint && t.win == trans :: c.mon == t.mon && c.tags == t.tags
      ensures forall m | m in old(ms) :: m.cs == if m == c.mon then old(m.cs) + [c] else old(m.cs)
      ensures FocusedFrom(if c.mon == selmon then [c] + old(selmon.st) else old(selmon.st))
      ensures forall m | m in old(ms) && m != selmon :: m.st == if m == c.mon then [c] + old(m.st) else old(m.st)
      ensures forall m | m in old(ms) && m != selmon :: m.sel == if m == c.mon then c else old(m.sel)
    {
      hide Heir, FirstVisible, On, Without, Top, Proper, Masked, FocusedFrom, RuleTags, Valid, Owned, MonsLinked,
        Monitor.Ok, Monitor.Members, Monitor.ClientsLinked, Monitor.StackLinked;
      c := NewClient(win, hint, trans, rule, ruleMon, isfloating);
      OnMonitor(c.mon);
      Admit(c);
      Refocus();
    }

    /** The first part of manage: the client's monitor and tags. */
    method NewClient(win: int, hint: bool, trans: int, rule: Mask, ruleMon: Monitor?, isfloating: bool)
      returns (c: Client)
      requires Valid() && (ruleMon == null || ruleMon in ms)
      ensures fresh(c) && c.win == win && c.mon in ms && Proper(c.tags) && c !in all && selmon in ms
      ensures !(exists t | t in all :: hint && t.win == trans) ==>
        c.mon == (if ruleMon == null then selmon else ruleMon) && c.tags == RuleTags(rule, c.mon.Shown())
      ensures forall t | t in all && hint && t.win == trans :: c.mon == t.mon && c.tags == t.tags
    {
      hide Heir, FirstVisible, On, Without, Top, Proper, Masked, FocusedFrom, Monitor.ClientsLinked,
        Monitor.StackLinked;
      var t: Client? := null;
      if hint {
        t := WinToClient(trans);
      }
      if t != null {
        OneWindow(t, trans);
        OnMonitor(t.mon);
        c := new Client(win, t.mon, t.tags, isfloating);
      } else {
        var m := if ruleMon == null then selmon else ruleMon;
        MaskedProper(rule);
        OnMonitor(m);
        c := new Client(win, m, RuleTags(rule, m.Shown()), isfloating);
      }
    }

    lemma OneWindow(t: Client, w: int)
      requires Valid() && t in all && t.win == w
      ensures forall d | d in all && d.win == w :: d == t
      ensures Proper(t.tags)
    {
      hide Monitor.ClientsLinked, Monitor.StackLinked, Proper;
      assert t.mon.Ok();
    }

    /** A client that joins one monitor keeps the invariant. */
    twostate lemma AdmitKeeps(c: Client)
      requires old(Valid()) && MonsLinked() && ms == old(ms) && all == old(all) + {c} && c !in old(all)
      requires c.mon in ms && c.mon.Ok() && c in c.mon.cs && Within(c.mon)
      requires forall x | x in ms && x != c.mon :: unchanged(x)
      requires forall d | d in old(all) && old(d.mon) != c.mon :: unchanged(d)
      requires forall d | d in old(all) && old(d.mon) == c.mon :: d.mon == c.mon && d in c.mon.cs
      requires forall d | d in old(all) :: d.win != c.win
      ensures Valid()
    {
      hide Heir, FirstVisible, On, Proper, Monitor.Ok, Within, MonsLinked;
      Local({c.mon});
    }

    /** The new client is attached and selected. */
    method Admit(c: Client)
      requires Valid() && c !in all && c.mon in ms && Proper(c.tags) && forall d | d in all :: d.win != c.win
      modifies this`all, c`next, c`snext, c.mon`clients, c.mon`stack, c.mon`sel, c.mon`cs, c.mon`st, c.mon.cs`next
      ensures Valid() && all == old(all) + {c} && c.mon.sel == c
      ensures c.mon.cs == old(c.mon.cs) + [c] && c.mon.st == [c] + old(c.mon.st)
    {
      hide Heir, FirstVisible, On, Proper, Monitor.ClientsLinked, Monitor.StackLinked, Monitor.Members, MonsLinked;
      OnMonitor(c.mon);
      Link(c);
      c.mon.sel := c;
      all := all + {c};
      AdmitKeeps(c);
    }

    lemma FocusSettles(st: seq<Client>)
      requires FocusedFrom(st)
      ensures Settled()
    {
    }

    /** sendmon */
    method SendMon(c: Client, m: Monitor)
      requires Valid() && c in all && m in ms
      modifies this`selmon, ms`sel, ms`stack, ms`st, ms`clients, ms`cs, all`snext, all`next, c`mon, c`tags
      ensures Valid() && selmon == old(selmon) && c.mon == m && (old(Settled()) ==> Settled())
      ensures old(c.mon) == m ==> c.tags == old(c.tags) && forall x | x in old(ms) ::
        x.cs == old(x.cs) && x.st == old(x.st) && x.sel == old(x.sel)
      ensures old(c.mon) != m ==> c.tags == m.Shown()
      ensures old(c.mon) != m ==> forall x | x in old(ms) ::
        x.cs == if x == m then old(m.cs) + [c] else if x == old(c.mon) then Without(old(x.cs), c) else old(x.cs)
      ensures old(c.mon) != m ==> FocusedFrom(
        if selmon == m then [c] + old(m.st) else if selmon == old(c.mon) then Without(old(selmon.st), c)
          else old(selmon.st))
      ensures old(c.mon) != m ==> forall x | x in old(ms) && x != selmon ::
        x.st == if x == m then [c] + old(m.st) else if x == old(c.mon) then Without(old(x.st), c) else old(x.st)
      ensures old(c.mon) != m ==> forall x | x in old(ms) && x != selmon ::
        x.sel == if x == old(c.mon) then old(Heir(c)) else old(x.sel)
    {
      hide Heir, FirstVisible, On, Without, Top, Proper, FocusedFrom, Valid, Owned, MonsLinked, Monitor.Ok,
        Monitor.Members, Monitor.ClientsLinked, Monitor.StackLinked;
      if c.mon == m {
        return;
      }
      Mine(c);
      OnMonitor(m);
      Transfer(c, m);
      ghost var st := selmon.st;
      Refocus();
      FocusSettles(st);
    }

    /** The lists and tags in sendmon. */
    method Transfer(c: Client, m: Monitor)
      requires Valid() && c in all && m in ms && c.mon != m
      modifies c`next, c`snext, c`mon, c`tags
      modifies c.mon`clients, c.mon`stack, c.mon`sel, c.mon`cs, c.mon`st, c.mon.cs`next, c.mon.st`snext
      modifies m`clients, m`stack, m`cs, m`st, m.cs`next
      ensures Valid() && c.mon == m && c.tags == m.Shown()
      ensures m.cs == old(m.cs) + [c] && m.st == [c] + old(m.st)
      ensures old(c.mon).cs == Without(old(c.mon.cs), c) && old(c.mon).st == Without(old(c.mon.st), c)
      ensures old(c.mon).sel == old(Heir(c))
    {
      hide Heir, FirstVisible, On, Without, Top, Proper, FocusedFrom, Valid, Owned, MonsLinked,
        Monitor.Members, Monitor.ClientsLinked, Monitor.StackLinked;
      Mine(c);
      OnMonitor(m);
      MoveTo(c, m);
      MoveKeeps(c);
    }

    /** A client that goes from one monitor to another keeps the invariant. */
    twostate lemma MoveKeeps(c: Client)
      requires old(Valid()) && MonsLinked() && ms == old(ms) && all == old(all) && c in all
      requires c.mon in ms && c.mon != old(c.mon) && c in c.mon.cs
      requires forall x | x == c.mon || x == old(c.mon) :: x.Ok() && Within(x)
      requires forall x | x in ms && x != c.mon && x != old(c.mon) :: unchanged(x)
      requires forall d | d in all && d != c ::
        d.mon == old(d.mon) && (old(d.mon) == c.mon || old(d.mon) == old(c.mon) || unchanged(d))
      requires forall d | d in all && d.mon == c.mon :: d in c.mon.cs
      requires forall d | d in all && d.mon == old(c.mon) :: d in old(c.mon).cs
      ensures Valid()
    {
      hide Heir, FirstVisible, On, Proper, Monitor.Ok, Within, MonsLinked;
      Local({c.mon, old(c.mon)});
    }

    lemma MovedSame(s: seq<Client>, v: set<Client>, k: nat, dir: int)
      requires k < |s| && NoDup(s)
      ensures forall c :: c in s <==> c in MoveStack.Moved(s, v, k, dir)
    {
      hide MoveStack.Moved;
      MoveStack.MovedKeeps(s, v, k, dir);
      ghost var t := MoveStack.Moved(s, v, k, dir);
      assert forall c :: c in s <==> c in multiset(s);
      assert forall c :: c in t <==> c in multiset(t);
    }

    lemma NoTwice(m: Monitor)
      requires m.ClientsLinked()
      ensures NoDup(m.cs)
    {
    }

    method MoveOn(m: Monitor, dir: int, ghost k: nat)
      requires m.Ok() && m.sel != null && k < |m.cs| && m.cs[k] == m.sel
      modifies m`clients, m`cs, m.cs`next
      ensures m.Ok() && m.cs == MoveStack.Moved(old(m.cs), old(MoveStack.Tiled(m)), k, dir)
      ensures forall c :: c in m.cs <==> c in old(m.cs)
    {
      hide On, Proper, MoveStack.Tiled, MoveStack.Moved, Monitor.ClientsLinked, Monitor.StackLinked, NoDup;
      NoTwice(m);
      MoveStack.MoveStack(m, dir, k);
      MovedSame(old(m.cs), old(MoveStack.Tiled(m)), k, dir);
    }

    /** movestack, which the source calls only with a selected client */
    method MoveSelected(dir: int, ghost k: nat)
      requires Valid() && selmon.sel != null && k < |selmon.cs| && selmon.cs[k] == selmon.sel
      modifies selmon`clients, selmon`cs, selmon.cs`next
      ensures Valid() && selmon.cs == MoveStack.Moved(old(selmon.cs), old(MoveStack.Tiled(selmon)), k, dir)
    {
      hide Monitor.StackLinked, On, Proper, MoveStack.Tiled, MoveStack.Moved, Owned;
      Basics();
      OnMonitor(selmon);
      MoveOn(selmon, dir, k);
      LocalOne(selmon);
    }

    // -------------------------------------------------------------------------------------------
    // Monitors

    /** The tags that rules give, if they give any, and else those shown on the monitor. */
    static lemma RuledByTag(rule: Mask, shown: Mask, b: Mask)
      requires b == 1 || b == 2 || b == 4
      ensures Has(RuleTags(rule, shown), b) <==>
        if Has(rule, 1) || Has(rule, 2) || Has(rule, 4) then Has(rule, b) else Has(shown, b)
    {
      TagByTag(shown, rule, b);
      OnByTag(0, rule);
    }

    /** The monitor before or after position i, going round. */
    static function Around(i: nat, n: nat, dir: int): (j: nat)
      requires i < n
      ensures j < n
    {
      if dir > 0 then (if i + 1 < n then i + 1 else 0) else if i == 0 then n - 1 else i - 1
    }

    /** Forward is one place on, backward undoes it, and only the ends meet. */
    static lemma RoundAndBack(i: nat, n: nat, dir: int)
      requires i < n && dir != 0
      ensures Around(Around(i, n, dir), n, 0 - dir) == i
      ensures dir > 0 && i + 1 < n ==> Around(i, n, dir) == i + 1
      ensures dir > 0 ==> Around(n - 1, n, dir) == 0
    {
    }

    /** dirtomon */
    method DirToMon(dir: int) returns (m: Monitor)
      requires MonsLinked()
      ensures m in ms && (|ms| > 1 ==> m != selmon)
      ensures forall i | 0 <= i < |ms| && ms[i] == selmon :: m == ms[Around(i, |ms|, dir)]
    {
      ghost var k: nat :| k < |ms| && ms[k] == selmon;
      if dir > 0 {
        var r := selmon.next;
        m := if r == null then mons else r;
      } else if selmon == mons {
        m := mons;
        ghost var j := 0;
        while m.next != null
          invariant 0 <= j < |ms| && m == ms[j]
          decreases |ms| - j
        {
          m, j := m.next, j + 1;
        }
      } else {
        m := mons;
        ghost var j := 0;
        while m.next != selmon
          invariant 0 <= j < k && m == ms[j]
          decreases k - j
        {
          m, j := m.next, j + 1;
        }
      }
    }

    method Select(m: Monitor)
      requires Valid() && m in ms
      modifies this`selmon
      ensures Valid() && selmon == m
    {
      hide Monitor.Ok, Owned;
      selmon := m;
    }

    /** focusmon */
    method FocusMon(dir: int)
      requires Valid()
      modifies this`selmon, ms`sel, ms`stack, ms`st, all`snext
      ensures Valid() && selmon in ms
      ensures forall i | 0 <= i < |ms| && ms[i] == old(selmon) :: selmon == ms[Around(i, |ms|, dir)]
      ensures selmon != old(selmon) ==> forall m | m in old(ms) && m == selmon :: FocusedFrom(old(m.st))
      ensures selmon == old(selmon) ==> selmon.st == old(selmon.st) && selmon.sel == old(selmon.sel)
      ensures forall m | m in old(ms) && m != selmon :: m.st == old(m.st) && m.sel == old(m.sel)
    {
      hide Valid, Heir, FirstVisible, On, Without, Top, Proper, FocusedFrom, Monitor.Ok, Owned, MonsLinked;
      Basics();
      OneMonitor();
      if mons.next == null {
        return;
      }
      var m := DirToMon(dir);
      if m == selmon {
        return;
      }
      Select(m);
      Refocus();
    }

    /** tagmon */
    method TagMon(dir: int)
      requires Valid()
      modifies this`selmon, ms`sel, ms`stack, ms`st, ms`clients, ms`cs, all`snext, all`next, all`mon, all`tags
      ensures Valid() && selmon == old(selmon)
      ensures old(selmon.sel) != null && |ms| > 1 ==> FocusedFrom(Without(old(selmon.st), old(selmon.sel)))
      ensures old(selmon.sel) != null && |ms| > 1 ==>
        forall i | 0 <= i < |ms| && ms[i] == selmon :: var m := ms[Around(i, |ms|, dir)];
          && old(selmon.sel).mon == m && old(selmon.sel).tags == m.Shown()
          && m.cs == old(m.cs) + [old(selmon.sel)] && selmon.cs == Without(old(selmon.cs), old(selmon.sel))
          && m.st == [old(selmon.sel)] + old(m.st)
      ensures old(selmon.sel) == null || |ms| == 1 ==>
        && (forall m | m in old(ms) :: m.cs == old(m.cs) && m.st == old(m.st) && m.sel == old(m.sel))
        && forall c | c in old(all) :: c.tags == old(c.tags) && c.mon == old(c.mon)
    {
      hide Heir, FirstVisible, On, Without, Top, Proper, FocusedFrom, Monitor.ClientsLinked, Monitor.StackLinked,
        Valid, Owned, MonsLinked;
      Basics();
      OneMonitor();
      if selmon.sel == null || mons.next == null {
        return;
      }
      OnMonitor(selmon);
      var m := DirToMon(dir);
      SendMon(selmon.sel, m);
    }

    /** A new monitor at the end of the list. */
    method AddMonitor()
      requires Valid()
      modifies this`ms, ms`next
      ensures Valid() && |ms| == |old(ms)| + 1 && ms[..|old(ms)|] == old(ms)
      ensures fresh(ms[|old(ms)|]) && ms[|old(ms)|].cs == []
    {
      hide Heir, FirstVisible, On, Without, Top, Proper, FocusedFrom, Monitor.ClientsLinked, Monitor.StackLinked;
      var m := LastMonitor();
      var x := new Monitor();
      LinkMonitor(m, x);
    }

    method LastMonitor() returns (m: Monitor)
      requires MonsLinked()
      ensures m == ms[|ms| - 1]
    {
      m := mons;
      ghost var j := 0;
      while m.next != null
        invariant 0 <= j < |ms| && m == ms[j]
        decreases |ms| - j
      {
        m, j := m.next, j + 1;
      }
    }

    method LinkMonitor(m: Monitor, x: Monitor)
      requires Valid() && m == ms[|ms| - 1] && x !in ms && x.Ok() && x.cs == [] && x.st == [] && x.next == null
      modifies this`ms, m`next
      ensures Valid() && ms == old(ms) + [x]
    {
      hide Monitor.Ok, MonsLinked, MonNoDup;
      AppendMonitor(m, x);
    }

    method AppendMonitor(m: Monitor, x: Monitor)
      requires MonsLinked() && m == ms[|ms| - 1] && x !in ms && x.next == null
      modifies this`ms, m`next
      ensures MonsLinked() && ms == old(ms) + [x]
    {
      m.next := x;
      ms := ms + [x];
    }

    /** The first client of the monitor that goes away moves to the first monitor. */
    method MoveFirst(m: Monitor)
      requires Valid() && m in ms && m != mons && m.cs != []
      modifies all`next, all`snext, m.cs`mon
      modifies m`clients, m`stack, m`sel, m`cs, m`st, mons`clients, mons`stack, mons`cs, mons`st
      ensures Valid() && old(m.cs)[0].mon == mons
      ensures m.cs == old(m.cs)[1..] && mons.cs == [old(m.cs)[0]] + old(mons.cs)
        && mons.st == [old(m.cs)[0]] + old(mons.st)
    {
      hide Heir, FirstVisible, On, Without, Top, Proper, FocusedFrom, Valid, Owned, MonsLinked,
        Monitor.Members, Monitor.ClientsLinked, Monitor.StackLinked;
      ghost var c := m.cs[0];
      Basics();
      OnMonitor(m);
      OnMonitor(mons);
      MoveHead(m, mons);
      MoveKeeps(c);
    }

    /** The clients of m all move to the first monitor, the last one to its front. */
    method Drain(m: Monitor)
      requires Valid() && m in ms && m != mons
      modifies all`next, all`snext, m.cs`mon
      modifies m`clients, m`stack, m`sel, m`cs, m`st, mons`clients, mons`stack, mons`cs, mons`st
      ensures Valid() && m.cs == [] && forall d | d in old(m.cs) :: d.mon == mons
      ensures mons.cs == Reverse(old(m.cs)) + old(mons.cs) && mons.st == Reverse(old(m.cs)) + old(mons.st)
    {
      hide Heir, FirstVisible, On, Without, Top, Proper, FocusedFrom, Valid, Owned, Reverse, Monitor.Ok, MonsLinked,
        Monitor.Members, Monitor.ClientsLinked, Monitor.StackLinked;
      ghost var done: seq<Client> := [];
      ReverseNone(mons.cs);
      ReverseNone(mons.st);
      NoClients(m);
      while m.clients != null
        invariant Valid() && m in ms && m != mons && (m.clients == null <==> m.cs == [])
        invariant done + m.cs == old(m.cs)
        invariant mons.cs == Reverse(done) + old(mons.cs) && mons.st == Reverse(done) + old(mons.st)
        decreases |m.cs|
      {
        ghost var c := m.cs[0];
        assert forall i | 0 <= i < |m.cs| :: m.cs[i] in old(m.cs) by {
          assert forall i | 0 <= i < |m.cs| :: m.cs[i] == old(m.cs)[|done| + i];
        }
        MoveFirst(m);
        ReverseMore(done, c, old(mons.cs));
        ReverseMore(done, c, old(mons.st));
        done := done + [c];
        NoClients(m);
      }
      assert done == old(m.cs);
      Basics();
      OnMonitor(mons);
      ReverseHas(done);
    }

    lemma NoClients(m: Monitor)
      requires Valid() && m in ms
      ensures m.clients == null <==> m.cs == []
    {
      assert m.Ok();
    }

    /** One turn of the loop of updategeom that removes monitors. */
    method RemoveMonitor(ghost gone: Monitor) returns (moved: bool)
      requires Valid() && |ms| > 1 && gone == ms[|ms| - 1]
      modifies this`ms, this`selmon, ms`next, all`next, all`snext, ms`clients, ms`stack, ms`sel, ms`cs, ms`st, all`mon
      ensures forall m | m in old(ms) && m != gone :: m.sel == old(m.sel)
      ensures forall m | m in old(ms) && m != gone && m != mons :: m.cs == old(m.cs) && m.st == old(m.st)
      ensures Valid() && old(ms) == ms + [gone] && gone !in ms && all == old(all) && mons == old(mons)
      ensures moved == (old(gone.cs) != []) && selmon == if old(selmon) == gone then mons else old(selmon)
      ensures mons.cs == Reverse(old(gone.cs)) + old(mons.cs) && mons.st == Reverse(old(gone.cs)) + old(mons.st)
      ensures forall c | c in old(all) :: c.mon == if old(c.mon) == gone then mons else old(c.mon)
      ensures !moved ==> mons.cs == old(mons.cs) && mons.st == old(mons.st)
    {
      hide Heir, FirstVisible, On, Without, Top, Proper, FocusedFrom, Valid, Owned, MonsLinked, MonNoDup, Reverse,
        Monitor.Ok, Monitor.Members, Monitor.ClientsLinked, Monitor.StackLinked;
      Basics();
      var m := LastMonitor();
      OnMonitor(m);
      NoClients(m);
      moved := m.clients != null;
      ReverseNone(mons.cs);
      ReverseNone(mons.st);
      Drain(m);
      Basics();
      if m == selmon {
        Select(mons);
      }
      Cleanup(m);
    }

    /** cleanupmon of the last monitor */
    method Cleanup(m: Monitor)
      requires Valid() && |ms| > 1 && m == ms[|ms| - 1] && m.cs == [] && selmon != m
      modifies this`ms, ms`next
      ensures Valid() && old(ms) == ms + [m] && m !in ms
    {
      hide Monitor.Ok, MonsLinked, MonNoDup, Within;
      OnMonitor(m);
      assert forall c | c in all :: c.mon != m;
      UnlinkLast(m);
      assert forall x | x in ms :: x in old(ms);
    }

    method UnlinkLast(m: Monitor)
      requires MonsLinked() && |ms| > 1 && m == ms[|ms| - 1] && selmon != m
      modifies this`ms, ms`next
      ensures MonsLinked() && old(ms) == ms + [m] && m !in ms
    {
      var p := mons;
      ghost var j := 0;
      while p.next != m
        invariant 0 <= j < |ms| - 1 && p == ms[j]
        decreases |ms| - j
      {
        p, j := p.next, j + 1;
      }
      p.next := m.next;
      ms := ms[..|ms| - 1];
    }

    /**
      * updategeom for nn >= 1 screens: monitors are added or removed at the end of the list; when the layout
      * is dirty the monitor under the pointer, given by its number, becomes the selected one.
      */
    method UpdateGeom(nn: nat, moved: bool, pointer: nat) returns (dirty: bool)
      requires Valid() && nn >= 1
      modifies this`ms, this`selmon, ms`next, all`next, all`snext, ms`clients, ms`stack, ms`sel, ms`cs, ms`st, all`mon
      ensures Valid() && |ms| == nn && all == old(all)
      ensures forall i | 0 <= i < nn && i < |old(ms)| :: ms[i] == old(ms)[i]
      ensures forall c | c in all :: c.mon == if old(c.mon) in ms then old(c.mon) else mons
      ensures forall m | m in ms && m in old(ms) :: m.sel == old(m.sel)
      ensures forall m | m in ms && m in old(ms) && m != mons :: m.cs == old(m.cs) && m.st == old(m.st)
      ensures forall i | 0 <= i < |ms| :: ms[i] in old(ms) || fresh(ms[i])
      ensures dirty == (moved || |old(ms)| < nn || old(Leaving(nn)))
      ensures !dirty ==> mons.cs == old(mons.cs) && mons.st == old(mons.st)
      ensures dirty ==> selmon == ms[if pointer < nn then pointer else 0]
      ensures !dirty ==> selmon == if old(selmon) in ms then old(selmon) else mons
    {
      hide Valid, Heir, FirstVisible, On, Without, Top, Proper, FocusedFrom, Monitor.Ok, Owned, MonsLinked, MonNoDup,
        Leaving;
      Basics();
      var n := CountMonitors();
      var left := ChangeMonitors(n, nn);
      dirty := moved || n < nn || left;
      if dirty {
        SelectMonitor(pointer);
      }
    }

    /** As the lists of the monitors but the first are what they were, clients have come only to the first. */
    twostate lemma WhereClientsAre()
      requires old(Valid()) && Valid() && all == old(all) && mons == old(mons)
      requires forall m | m in ms && m != mons :: if m in old(ms) then m.cs == old(m.cs) else m.cs == []
      ensures forall c | c in all :: c.mon == if old(c.mon) in ms then old(c.mon) else mons
    {
      hide On, Proper, Monitor.ClientsLinked, Monitor.StackLinked;
      forall c | c in all ensures c.mon == if old(c.mon) in ms then old(c.mon) else mons {
        assert c.mon.Ok() && old(c.mon.Ok());
        if old(c.mon) in ms {
          assert old(c.mon).Ok();
        }
      }
    }

    /** The two loops of updategeom that add and remove monitors. */
    method ChangeMonitors(n: nat, nn: nat) returns (left: bool)
      requires Valid() && n == |ms| && nn >= 1
      modifies this`ms, this`selmon, ms`next, all`next, all`snext, ms`clients, ms`stack, ms`sel, ms`cs, ms`st, all`mon
      ensures Valid() && |ms| == nn && all == old(all) && mons == old(mons)
      ensures forall i | 0 <= i < nn && i < n :: ms[i] == old(ms)[i]
      ensures forall c | c in all :: c.mon == if old(c.mon) in ms then old(c.mon) else mons
      ensures forall m | m in ms && m in old(ms) :: m.sel == old(m.sel)
      ensures forall m | m in ms && m in old(ms) && m != mons :: m.cs == old(m.cs) && m.st == old(m.st)
      ensures forall i | 0 <= i < |ms| :: ms[i] in old(ms) || fresh(ms[i])
      ensures left == old(Leaving(nn))
      ensures !left ==> mons.cs == old(mons.cs) && mons.st == old(mons.st)
      ensures selmon == if old(selmon) in ms then old(selmon) else mons
    {
      hide Valid, Monitor.Ok, Owned, MonsLinked, MonNoDup, Leaving;
      Basics();
      AddMonitors(n, nn);
      left := RemoveMonitors(n, nn);
      WhereClientsAre();
    }

    lemma OneMonitor()
      requires MonsLinked()
      ensures mons.next == null <==> |ms| == 1
    {
    }

    lemma Basics()
      requires Valid()
      ensures MonsLinked() && |ms| > 0 && mons == ms[0] && selmon in ms && MonNoDup(ms)
      ensures forall c | c in all :: c.mon in ms
    {
    }

    method CountMonitors() returns (n: nat)
      requires MonsLinked()
      ensures n == |ms|
    {
      n := 0;
      var m: Monitor? := mons;
      while m != null
        invariant n <= |ms| && m == MonAt(ms, n)
        decreases |ms| - n
      {
        m, n := m.next, n + 1;
      }
    }

    method AddMonitors(n: nat, nn: nat)
      requires Valid() && n == |ms|
      modifies this`ms, ms`next
      ensures Valid() && |ms| == (if n < nn then nn else n) && ms[..n] == old(ms)
      ensures forall i | 0 <= i < |ms| :: ms[i] in old(ms) || fresh(ms[i])
      ensures Leaving(nn) == old(Leaving(nn)) && all == old(all)
      ensures forall i | n <= i < |ms| :: ms[i].cs == []
      ensures forall c | c in all :: c.mon == old(c.mon)
      ensures forall m | m in old(ms) :: m.sel == old(m.sel) && m.cs == old(m.cs) && m.st == old(m.st)
    {
      hide Valid, Monitor.Ok, Monitor.Members, Monitor.ClientsLinked, Monitor.StackLinked, MonsLinked, Owned;
      for i := n to if n < nn then nn else n
        invariant Valid() && |ms| == i && ms[..n] == old(ms)
        invariant forall j | 0 <= j < |ms| :: ms[j] in old(ms) || fresh(ms[j])
        invariant forall j | n <= j < |ms| :: ms[j].cs == []
      {
        AddMonitor();
      }
    }

    /** One of the monitors from number nn on has clients. */
    ghost predicate Leaving(nn: nat)
      reads this`ms, ms`cs
    {
      SomeFrom(ListsOf(ms), nn)
    }

    /** What a turn of the loop does, in terms of the monitors that stay. */
    method RemoveLast(ghost gone: Monitor) returns (moved: bool)
      requires Valid() && |ms| > 1 && gone == ms[|ms| - 1]
      modifies this`ms, this`selmon, ms`next, all`next, all`snext, ms`clients, ms`stack, ms`sel, ms`cs, ms`st, all`mon
      ensures forall m | m in old(ms) && m != gone :: m.sel == old(m.sel)
      ensures forall m | m in old(ms) && m != gone && m != mons :: m.cs == old(m.cs) && m.st == old(m.st)
      ensures Valid() && ms == old(ms)[..|old(ms)| - 1] && gone !in ms
      ensures selmon == if old(selmon) in ms then old(selmon) else mons
      ensures moved == (old(gone.cs) != [])
      ensures !moved ==> mons.cs == old(mons.cs) && mons.st == old(mons.st)
    {
      hide Valid, Monitor.Ok, Owned, MonsLinked, MonNoDup, Reverse;
      Basics();
      moved := RemoveMonitor(gone);
    }

    method RemoveMonitors(n: nat, nn: nat) returns (moved: bool)
      requires Valid() && |ms| == (if n < nn then nn else n) && nn >= 1
      modifies this`ms, this`selmon, ms`next, all`next, all`snext, ms`clients, ms`stack, ms`sel, ms`cs, ms`st, all`mon
      ensures Valid() && ms == old(ms)[..nn] && all == old(all) && mons == old(mons)
      ensures forall m | m in ms :: m.sel == old(m.sel)
      ensures forall m | m in ms && m != mons :: m.cs == old(m.cs) && m.st == old(m.st)
      ensures !moved ==> mons.cs == old(mons.cs) && mons.st == old(mons.st)
      ensures moved == old(Leaving(nn))
      ensures selmon == if old(selmon) in ms then old(selmon) else mons
    {
      hide Valid, Monitor.Ok, Owned, MonsLinked, MonNoDup, Reverse, ListsOf, SomeFrom, FirstVisible, On, Proper,
        Without, Heir, Top, FocusedFrom, Settled, Within, MonAt, At, NoDup;
      moved := false;
      Basics();
      ghost var lists := ListsOf(ms);
      assert MonNoDup(ms) && SomeFrom(lists, nn) == Leaving(nn);
      if ms != [] {
        SomeStep(lists, |ms| - 1);
      }
      var i := nn;
      while i < n
        invariant nn <= n ==> nn <= i <= n
        invariant Valid() && |ms| == (if n < nn then nn else n - (i - nn))
        invariant ms <= old(ms)
        invariant forall m | m in ms :: m.sel == old(m.sel)
        invariant forall m | m in ms && m != mons :: m.cs == old(m.cs) && m.st == old(m.st)
        invariant !moved ==> mons.cs == old(mons.cs) && mons.st == old(mons.st)
        invariant moved == SomeFrom(lists, |ms|)
        invariant selmon == if old(selmon) in ms then old(selmon) else mons
      {
        Basics();
        SomeStep(lists, |ms| - 1);
        var one := RemoveLast(ms[|ms| - 1]);
        moved := moved || one;
        i := i + 1;
      }
    }

    /** The monitor under the pointer, the first one when there is none. */
    method SelectMonitor(pointer: nat)
      requires Valid()
      modifies this`selmon
      ensures Valid() && selmon == ms[if pointer < |ms| then pointer else 0]
    {
      hide Valid, Heir, FirstVisible, On, Without, Top, Proper, FocusedFrom, Monitor.Ok, Owned;
      Basics();
      var m: Monitor?, k := mons, 0;
      while m != null && k < pointer
        invariant 0 <= k <= |ms| && k <= pointer && m == MonAt(ms, k)
        decreases |ms| - k
      {
        m, k := m.next, k + 1;
      }
      Select(if m == null then mons else m);
    }

    // -------------------------------------------------------------------------------------------
    // Runs

    /** The monitor with number k, if there is one. */
    method MonitorAt(k: nat) returns (m: Monitor?)
      requires MonsLinked()
      ensures m == MonAt(ms, k)
    {
      m := mons;
      var i := 0;
      while m != null && i < k
        invariant i <= k && m == MonAt(ms, i)
        decreases k - i
      {
        m, i := m.next, i + 1;
      }
    }

    /** The selected client, if there is one, is on its monitor, which shows a tag. */
    lemma SelectedHere()
      requires Valid()
      ensures selmon in ms && (selmon.sel != null ==> selmon.sel in all && selmon.sel.mon == selmon)
      ensures selmon.Shown() != 0
    {
      hide On, Monitor.ClientsLinked, Monitor.StackLinked;
      OnMonitor(selmon);
    }

    method FocusEvent(w: int)
      requires Valid()
      modifies this`selmon, ms`sel, ms`stack, ms`st, all`snext
      ensures Valid() && (old(Settled()) ==> Settled())
      ensures forall c | c in old(all) && c.win == w && old(c.Visible()) :: selmon == c.mon && selmon.sel == c
    {
      hide Valid, Monitor.Ok, MonsLinked, Owned, Settled;
      var c := WinToClient(w);
      if c != null {
        OneWindow(c, w);
        Mine(c);
        ghost var picked := Focus(c);
      }
    }

    method PopEvent(w: int)
      requires Valid()
      modifies this`selmon, ms`sel, ms`stack, ms`st, ms`clients, ms`cs, all`snext, all`next
      ensures Valid() && (old(Settled()) ==> Settled())
      ensures forall c | c in old(all) && c.win == w :: c.mon.cs == [c] + Without(old(c.mon.cs), c)
    {
      hide Valid, Monitor.Ok, MonsLinked, Owned, Settled;
      var c := WinToClient(w);
      if c != null {
        OneWindow(c, w);
        Mine(c);
        Basics();
        ghost var picked := Pop(c);
      }
    }

    method UnmapEvent(w: int)
      requires Valid()
      modifies this`selmon, this`all, ms`sel, ms`stack, ms`st, ms`clients, ms`cs, all`snext, all`next
      ensures Valid() && all <= old(all) && (old(Settled()) ==> Settled())
      ensures forall c | c in all :: c.win != w
      ensures forall c | c in old(all) && c.win != w :: c in all
    {
      hide Valid, Monitor.Ok, MonsLinked, Owned, Settled;
      var c := WinToClient(w);
      if c != null {
        OneWindow(c, w);
        Unmanage(c);
      }
    }

    method MapEvent(w: int, hint: bool, trans: int, rule: Mask, ruleMon: nat, isfloating: bool)
      requires Valid()
      modifies this`selmon, this`all, ms`sel, ms`stack, ms`st, ms`clients, ms`cs, all`snext, all`next
      ensures Valid() && (old(Settled()) ==> Settled())
      ensures forall c | c in all :: c in old(all) || fresh(c)
      ensures exists c | c in all :: c.win == w
      ensures old(all) <= all && forall c | c in all :: c in old(all) || c.win == w
    {
      hide Valid, Monitor.Ok, MonsLinked, Owned, Settled, RuleTags;
      var c := WinToClient(w);
      if c == null {
        Basics();
        var m := MonitorAt(ruleMon);
        var n := Manage(w, hint, trans, rule, m, isfloating);
      }
    }

    method SendEvent(w: int, k: nat)
      requires Valid()
      modifies this`selmon, ms`sel, ms`stack, ms`st, ms`clients, ms`cs, all`snext, all`next, all`mon, all`tags
      ensures Valid() && (old(Settled()) ==> Settled())
      ensures forall c | c in old(all) :: c.mon == if c.win == w && k < |ms| then ms[k] else old(c.mon)
    {
      hide Valid, Monitor.Ok, MonsLinked, Owned, FirstVisible, Settled, FocusedFrom, Without, Heir;
      var c := WinToClient(w);
      Basics();
      var m := MonitorAt(k);
      if c != null {
        OneWindow(c, w);
      }
      if c != null && m != null {
        SendMon(c, m);
      }
    }

    lemma OnePlace(m: Monitor, k: nat)
      requires m.ClientsLinked() && k < |m.cs|
      ensures forall j: nat | j < |m.cs| && m.cs[j] == m.cs[k] :: j == k
    {
    }

    /** movestack reads the selected client without a test: the key counts only when there is one. */
    method MoveEvent(dir: int)
      requires Valid()
      modifies ms`clients, ms`cs, all`next
      ensures Valid() && (old(Settled()) ==> Settled())
      ensures old(selmon.sel) != null ==>
        forall k: nat | k < |old(selmon.cs)| && old(selmon.cs)[k] == old(selmon.sel) ::
          selmon.cs == MoveStack.Moved(old(selmon.cs), old(MoveStack.Tiled(selmon)), k, dir)
    {
      hide Valid, Owned, MonsLinked, Monitor.ClientsLinked, Monitor.StackLinked, MoveStack.Moved, MoveStack.Tiled;
      Basics();
      OnMonitor(selmon);
      if selmon.sel != null {
        ghost var k: nat :| k < |selmon.cs| && selmon.cs[k] == selmon.sel;
        OnePlace(selmon, k);
        MoveSelected(dir, k);
      }
    }

    method MonitorKey(e: Event)
      requires Valid() && (e.TagMonKey? || e.FocusMonKey?)
      modifies this`selmon, ms`sel, ms`stack, ms`st, ms`clients, ms`cs, all`snext, all`next, all`mon, all`tags
      ensures Valid() && (old(Settled()) ==> Settled())
      ensures e.FocusMonKey? ==>
        forall i | 0 <= i < |ms| && ms[i] == old(selmon) :: selmon == ms[Around(i, |ms|, e.dir)]
      ensures e.TagMonKey? && old(selmon.sel) != null ==>
        forall i | 0 <= i < |ms| && ms[i] == old(selmon) :: old(selmon.sel).mon == ms[Around(i, |ms|, e.dir)]
    {
      hide Valid, Monitor.Ok, MonsLinked, FirstVisible;
      Basics();
      SelectedHere();
      match e
      case TagMonKey(dir) => TagMon(dir);
      case FocusMonKey(dir) => FocusMon(dir);
    }

    method TagEvent(e: Event)
      requires Valid() && (e.TagKey? || e.ToggleTagKey?)
      modifies this`selmon, ms`sel, ms`stack, ms`st, all`snext, all`tags
      ensures Valid() && (old(Settled()) ==> Settled())
      ensures e.TagKey? ==> forall c | c in old(all) ::
        c.tags == old(if c == selmon.sel && Masked(e.ui) != 0 then Masked(e.ui) else c.tags)
      ensures e.ToggleTagKey? ==> forall c | c in old(all) ::
        c.tags == old(if c == selmon.sel && Toggled(c.tags, e.ui) != 0 then Toggled(c.tags, e.ui) else c.tags)
    {
      hide Valid, Monitor.Ok, MonsLinked, Owned, FirstVisible, Masked, Toggled;
      SelectedHere();
      match e
      case TagKey(ui) => Tag(ui);
      case ToggleTagKey(ui) => ToggleTag(ui);
    }

    method ViewEvent(e: Event)
      requires Valid() && (e.ViewKey? || e.ToggleViewKey?)
      modifies this`selmon, ms`sel, ms`stack, ms`st, ms`seltags, ms`tagset0, ms`tagset1, all`snext
      ensures Valid() && (old(Settled()) ==> Settled())
      ensures e.ViewKey? ==>
        && selmon.Shown() == old(if Masked(e.ui) != 0 then Masked(e.ui) else selmon.Hidden())
        && selmon.Hidden() == old(if Masked(e.ui) == selmon.Shown() then selmon.Hidden() else selmon.Shown())
      ensures e.ToggleViewKey? ==>
        && selmon.Shown() ==
          old(if Toggled(selmon.Shown(), e.ui) != 0 then Toggled(selmon.Shown(), e.ui) else selmon.Shown())
        && selmon.Hidden() == old(selmon.Hidden())
      ensures selmon == old(selmon)
    {
      hide Valid, Monitor.Ok, MonsLinked, Owned, FirstVisible, Masked, Toggled;
      SelectedHere();
      match e
      case ViewKey(ui) => View(ui);
      case ToggleViewKey(ui) => ToggleView(ui);
    }

    /**
      * Monitors without clients disappear with the selected one among them and nothing else changes: then the
      * first monitor is selected without a new choice of its client.
      */
    ghost predicate Stranded(nn: nat, moved: bool, resized: bool)
      requires |ms| > 0
      reads this`ms, this`selmon, ms`cs, ms`st, ms`sel, ms`seltags, ms`tagset0, ms`tagset1
      reads if |ms| > 0 then ms[0].st else [] `tags
    {
      && !moved && !resized && nn < |ms| && !Leaving(nn) && selmon !in ms[..nn]
      && ms[0].sel != FirstVisible(ms[0].st, ms[0].Shown())
    }

    /** configurenotify of the root window; resized says whether its size changed */
    method GeometryEvent(nn: nat, moved: bool, resized: bool, pointer: nat)
      requires Valid() && nn >= 1 && |ms| > 0
      modifies this`ms, this`selmon, ms`next, all`next, all`snext, ms`clients, ms`stack, ms`sel, ms`cs, ms`st, all`mon
      ensures Valid() && all == old(all) && |ms| == nn
      ensures old(Settled()) ==> (Settled() <==> !old(Stranded(nn, moved, resized)))
      ensures forall i | 0 <= i < |ms| :: ms[i] in old(ms) || fresh(ms[i])
      ensures forall c | c in old(all) :: c.mon == if old(c.mon) in ms then old(c.mon) else mons
    {
      hide Valid, Monitor.Ok, MonsLinked, Owned, FirstVisible, Leaving, FocusedFrom, MonNoDup;
      Basics();
      var dirty := UpdateGeom(nn, moved, pointer);
      if dirty || resized {
        ghost var st := selmon.st;
        Refocus();
        FocusSettles(st);
      }
    }

    /** One event; an event that names an unknown window changes nothing. */
    method Step(e: Event)
      requires Valid() && (e.Geometry? ==> e.nn >= 1)
      modifies this, ms, all
      ensures e.Map? ==> old(all) <= all && forall c | c in all :: c in old(all) || c.win == e.win
      ensures e.Map? ==> exists c | c in all :: c.win == e.win
      ensures !e.Map? && !e.Unmap? ==> all == old(all)
      ensures e.Unmap? ==> forall c | c in old(all) :: c in all <==> c.win != e.win
      ensures e.FocusWin? ==>
        forall c | c in old(all) && c.win == e.win && old(c.Visible()) :: selmon == c.mon && selmon.sel == c
      ensures e.PopWin? ==> forall c | c in old(all) && c.win == e.win :: c.mon.cs == [c] + Without(old(c.mon.cs), c)
      ensures e.SendWin? ==> forall c | c in old(all) ::
        c.mon == if c.win == e.win && e.mon < |ms| then ms[e.mon] else old(c.mon)
      ensures e.TagKey? ==> forall c | c in old(all) ::
        c.tags == old(if c == selmon.sel && Masked(e.ui) != 0 then Masked(e.ui) else c.tags)
      ensures e.ToggleTagKey? ==> forall c | c in old(all) ::
        c.tags == old(if c == selmon.sel && Toggled(c.tags, e.ui) != 0 then Toggled(c.tags, e.ui) else c.tags)
      ensures e.ViewKey? ==>
        && selmon.Shown() == old(if Masked(e.ui) != 0 then Masked(e.ui) else selmon.Hidden())
        && selmon.Hidden() == old(if Masked(e.ui) == selmon.Shown() then selmon.Hidden() else selmon.Shown())
      ensures e.ToggleViewKey? ==>
        && selmon.Shown() ==
          old(if Toggled(selmon.Shown(), e.ui) != 0 then Toggled(selmon.Shown(), e.ui) else selmon.Shown())
        && selmon.Hidden() == old(selmon.Hidden())
      ensures e.FocusMonKey? ==>
        forall i | 0 <= i < |ms| && ms[i] == old(selmon) :: selmon == ms[Around(i, |ms|, e.dir)]
      ensures e.TagMonKey? && old(selmon.sel) != null ==>
        forall i | 0 <= i < |ms| && ms[i] == old(selmon) :: old(selmon.sel).mon == ms[Around(i, |ms|, e.dir)]
      ensures e.MoveKey? && old(selmon.sel) != null ==>
        forall k: nat | k < |old(selmon.cs)| && old(selmon.cs)[k] == old(selmon.sel) ::
          selmon.cs == MoveStack.Moved(old(selmon.cs), old(MoveStack.Tiled(selmon)), k, e.dir)
      ensures e.Geometry? ==> forall c | c in old(all) :: c.mon == if old(c.mon) in ms then old(c.mon) else mons
      ensures Valid() && |ms| == (if e.Geometry? then e.nn else |old(ms)|)
      ensures old(Settled()) && e.Refocuses(|old(ms)|) ==> Settled()
      ensures forall i | 0 <= i < |ms| :: ms[i] in old(ms) || fresh(ms[i])
      ensures forall c | c in all :: c in old(all) || fresh(c)
    {
      hide Valid, Monitor.Ok, MonsLinked, Owned, Settled;
      match e
      case Map(w, hint, trans, rule, ruleMon, isfloating) => MapEvent(w, hint, trans, rule, ruleMon, isfloating);
      case Unmap(w) => UnmapEvent(w);
      case FocusWin(w) => FocusEvent(w);
      case PopWin(w) => PopEvent(w);
      case SendWin(w, k) => SendEvent(w, k);
      case TagMonKey(_) | FocusMonKey(_) => MonitorKey(e);
      case MoveKey(dir) => MoveEvent(dir);
      case Geometry(nn, moved, resized, pointer) =>
        Basics();
        GeometryEvent(nn, moved, resized, pointer);
      case TagKey(_) | ToggleTagKey(_) => TagEvent(e);
      case ViewKey(_) | ToggleViewKey(_) => ViewEvent(e);
    }

    /** Any run of events keeps the managed-client invariant. */
    method Run(es: seq<Event>)
      requires Valid() && forall e | e in es && e.Geometry? :: e.nn >= 1
      modifies this, ms, all
      ensures Valid()
      ensures old(Settled()) && Refocusing(|old(ms)|, es) ==> Settled()
    {
      hide Valid, Monitor.Ok, MonsLinked, Owned, Settled;
      ghost var n := |ms|;
      for i := 0 to |es|
        invariant Valid()
        invariant forall i | 0 <= i < |ms| :: ms[i] in old(ms) || fresh(ms[i])
        invariant forall c | c in all :: c in old(all) || fresh(c)
        invariant old(Settled()) && Refocusing(n, es) ==> Settled() && Refocusing(|ms|, es[i..])
      {
        assert es[i..][1..] == es[i + 1..];
        Step(es[i]);
      }
    }
  }
}
