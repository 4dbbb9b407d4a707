/**
  * movestack.c: the selected client changes places with its neighbour among the tiled visible clients, by
  * rewriting `next` links.
  */
module MoveStack {
  import opened ClientLists

  // ---------------------------------------------------------------------------------------------
  // The order of the clients.

  /** The first place from i on with a client of v, |s| when there is none. */
  function FirstIn(s: seq<Client>, v: set<Client>, i: nat): (j: nat)
    requires i <= |s|
    ensures i <= j <= |s| && (j < |s| ==> s[j] in v)
    ensures forall n | i <= n < j :: s[n] !in v
    decreases |s| - i
  {
    if i == |s| || s[i] in v then i else FirstIn(s, v, i + 1)
  }

  /** The last place from i up to j with a client of v, |s| when there is none. */
  function LastIn(s: seq<Client>, v: set<Client>, i: nat, j: nat): (r: nat)
    requires i <= j <= |s|
    ensures r == |s| || (i <= r < j && s[r] in v)
    ensures forall n | i <= n < j && (r == |s| || r < n) :: s[n] !in v
    decreases j
  {
    if i == j then |s| else if s[j - 1] in v then j - 1 else LastIn(s, v, i, j - 1)
  }

  /** The neighbour of place k among the places of v, going round; |s| when v has no place. */
  function Neighbour(s: seq<Client>, v: set<Client>, k: nat, dir: int): (j: nat)
    requires k < |s|
    ensures j <= |s|
  {
    if dir > 0 then
      var j := FirstIn(s, v, k + 1);
      if j < |s| then j else FirstIn(s, v, 0)
    else
      var j := LastIn(s, v, 0, k);
      if j < |s| then j else LastIn(s, v, k, |s|)
  }

  function Swap(s: seq<Client>, i: nat, j: nat): (r: seq<Client>)
    requires i < |s| && j < |s|
    ensures |r| == |s|
  {
    s[i := s[j]][j := s[i]]
  }

  /** The order after movestack for the selected client at place k. */
  function Moved(s: seq<Client>, v: set<Client>, k: nat, dir: int): (r: seq<Client>)
    requires k < |s|
    ensures |r| == |s|
  {
    var j := Neighbour(s, v, k, dir);
    if j < |s| then Swap(s, k, j) else s
  }

  /** The place of the selected client after movestack. */
  function Place(s: seq<Client>, v: set<Client>, k: nat, dir: int): (j: nat)
    requires k < |s|
    ensures j < |s|
  {
    var j := Neighbour(s, v, k, dir);
    if j < |s| then j else k
  }

  lemma SwapNoDup(s: seq<Client>, i: nat, j: nat)
    requires i < |s| && j < |s| && NoDup(s)
    ensures NoDup(Swap(s, i, j)) && multiset(Swap(s, i, j)) == multiset(s)
  {
  }

  lemma SwapSelf(s: seq<Client>, k: nat)
    requires k < |s|
    ensures Swap(s, k, k) == s
  {
  }

  /** movestack keeps the clients, and the selected one is where its neighbour was. */
  lemma MovedKeeps(s: seq<Client>, v: set<Client>, k: nat, dir: int)
    requires k < |s| && NoDup(s)
    ensures multiset(Moved(s, v, k, dir)) == multiset(s) && NoDup(Moved(s, v, k, dir))
    ensures Moved(s, v, k, dir)[Place(s, v, k, dir)] == s[k]
    ensures forall n | 0 <= n < |s| && n != k && n != Place(s, v, k, dir) :: Moved(s, v, k, dir)[n] == s[n]
    ensures Place(s, v, k, dir) != k ==> s[Place(s, v, k, dir)] in v
  {
    var j := Neighbour(s, v, k, dir);
    if j < |s| {
      SwapNoDup(s, k, j);
    }
  }

  /** Going forward from place k, and on from the start after the end, place n comes before place j. */
  predicate Passed(k: nat, j: nat, n: nat) {
    if k < j then k < n < j else k < n || n < j
  }

  /**
    * The neighbour is the first client of v that is met going forward, or backward when dir is not positive, and
    * round the end of the list; the selected client stays only if there is no other.
    */
  lemma NeighbourIsNext(s: seq<Client>, v: set<Client>, k: nat, dir: int)
    requires k < |s|
    ensures var j := Place(s, v, k, dir);
      && (j != k ==> s[j] in v)
      && (dir > 0 ==> forall n: nat | n < |s| && Passed(k, j, n) :: s[n] !in v)
      && (dir <= 0 ==> forall n: nat | n < |s| && Passed(j, k, n) :: s[n] !in v)
      && (j == k ==> forall n: nat | n < |s| && n != k :: s[n] !in v)
  {
  }

  lemma LastIs(s: seq<Client>, v: set<Client>, i: nat, j: nat, r: nat)
    requires i <= j <= |s| && i <= r <= |s|
    requires r < j ==> s[r] in v && forall n | r < n < j :: s[n] !in v
    requires r >= j ==> r == |s| && forall n | i <= n < j :: s[n] !in v
    ensures LastIn(s, v, i, j) == r
  {
  }

  lemma FirstIs(s: seq<Client>, v: set<Client>, i: nat, r: nat)
    requires i <= r <= |s| && (r < |s| ==> s[r] in v) && forall n | i <= n < r :: s[n] !in v
    ensures FirstIn(s, v, i) == r
  {
  }

  /** The neighbour below, once swapped, finds its way back up. */
  lemma Back(s: seq<Client>, v: set<Client>, k: nat, j: nat)
    requires k < |s| && j == Neighbour(s, v, k, 1) && j < |s|
    ensures Neighbour(Swap(s, k, j), v, j, -1) == k
  {
    var t := Swap(s, k, j);
    if k < j {
      LastIs(t, v, 0, j, k);
    } else {
      LastIs(t, v, 0, j, |t|);
      LastIs(t, v, j, |t|, k);
    }
  }

  lemma Forth(s: seq<Client>, v: set<Client>, k: nat, j: nat)
    requires k < |s| && j == Neighbour(s, v, k, -1) && j < |s|
    ensures Neighbour(Swap(s, k, j), v, j, 1) == k
  {
    var t := Swap(s, k, j);
    if j < k {
      FirstIs(t, v, j + 1, k);
    } else {
      FirstIs(t, v, j + 1, |t|);
      FirstIs(t, v, 0, k);
    }
  }

  /** Moving down and then up again, or up and then down, restores the order, round the ends too. */
  lemma MoveBack(s: seq<Client>, v: set<Client>, k: nat, dir: int)
    requires k < |s| && NoDup(s) && dir != 0
    ensures Place(Moved(s, v, k, dir), v, Place(s, v, k, dir), 0 - dir) == k
    ensures Moved(Moved(s, v, k, dir), v, Place(s, v, k, dir), 0 - dir) == s
  {
    var j := Neighbour(s, v, k, dir);
    if j < |s| {
      var t := Swap(s, k, j);
      if dir > 0 {
        Back(s, v, k, j);
      } else {
        Forth(s, v, k, j);
      }
      assert Swap(t, j, k) == s;
    }
  }

  // ---------------------------------------------------------------------------------------------
  // The links.

  /** The tiled visible clients of a monitor. */
  ghost function Tiled(m: Monitor): set<Client>
    reads m`cs, m`seltags, m`tagset0, m`tagset1, m.cs`tags, m.cs`isfloating
  {
    set c | c in m.cs && On(c.tags, m.Shown()) && !c.isfloating
  }

  ghost predicate Listed(m: Monitor)
    reads m`clients, m`cs, m.cs`next, m.cs`mon
  {
    m.ClientsLinked() && forall c | c in m.cs :: c.mon == m
  }

  /** nexttiled: the first tiled visible client from c on, which is at place i. */
  method NextTiled(m: Monitor, c: Client?, ghost i: nat) returns (r: Client?)
    requires Listed(m) && i <= |m.cs| && c == At(m.cs, i)
    ensures r == At(m.cs, FirstIn(m.cs, Tiled(m), i))
  {
    hide On;
    r := c;
    ghost var n := i;
    while r != null && (!r.Visible() || r.isfloating)
      invariant n <= |m.cs| && r == At(m.cs, n)
      invariant FirstIn(m.cs, Tiled(m), n) == FirstIn(m.cs, Tiled(m), i)
      decreases |m.cs| - n
    {
      assert r == m.cs[n] && r !in Tiled(m);
      r, n := r.next, n + 1;
    }
    if n < |m.cs| {
      assert r == m.cs[n] && r in Tiled(m);
    }
  }

  /** The last tiled visible client before the selected one. */
  method LastBefore(m: Monitor, sel: Client, ghost k: nat) returns (c: Client?)
    requires Listed(m) && k < |m.cs| && m.cs[k] == sel
    ensures c == At(m.cs, LastIn(m.cs, Tiled(m), 0, k))
  {
    hide On;
    c := null;
    var i := m.clients;
    ghost var n := 0;
    while i != sel
      invariant n <= k && i == At(m.cs, n)
      invariant c == At(m.cs, LastIn(m.cs, Tiled(m), 0, n))
      decreases k - n
    {
      assert i == m.cs[n];
      if i.Visible() && !i.isfloating {
        c := i;
      }
      i, n := i.next, n + 1;
    }
    assert n == k;
  }

  /** The last tiled visible client from the selected one on. */
  method LastFrom(m: Monitor, sel: Client, ghost k: nat) returns (c: Client?)
    requires Listed(m) && k < |m.cs| && m.cs[k] == sel
    ensures c == At(m.cs, LastIn(m.cs, Tiled(m), k, |m.cs|))
  {
    hide On;
    c := null;
    var i: Client? := sel;
    ghost var n := k;
    while i != null
      invariant k <= n <= |m.cs| && i == At(m.cs, n)
      invariant c == At(m.cs, LastIn(m.cs, Tiled(m), k, n))
      decreases |m.cs| - n
    {
      assert i == m.cs[n];
      if i.Visible() && !i.isfloating {
        c := i;
      }
      i, n := i.next, n + 1;
    }
  }

  /** The client before the selected one, going round. */
  method PrevTiled(m: Monitor, sel: Client, ghost k: nat) returns (c: Client?)
    requires Listed(m) && k < |m.cs| && m.cs[k] == sel
    ensures c == At(m.cs, Neighbour(m.cs, Tiled(m), k, -1))
  {
    hide On, Tiled, Listed, LastIn;
    c := LastBefore(m, sel, k);
    if c == null {
      c := LastFrom(m, sel, k);
    }
  }

  /** The client before place k. */
  function Previous(s: seq<Client>, k: nat): Client?
    requires k <= |s|
  {
    if k == 0 then null else s[k - 1]
  }

  /** The clients before sel and c in the list, null at its head. */
  method Before(m: Monitor, sel: Client, c: Client?, ghost k: nat, ghost j: nat) returns (p: Client?, pc: Client?)
    requires m.ClientsLinked() && k < |m.cs| && j <= |m.cs| && m.cs[k] == sel && c == At(m.cs, j)
    ensures p == Previous(m.cs, k) && (c != null ==> pc == Previous(m.cs, j))
  {
    p, pc := null, null;
    var i := m.clients;
    ghost var n := 0;
    while i != null && (p == null || pc == null)
      invariant n <= |m.cs| && i == At(m.cs, n)
      invariant p == if 0 < k <= n then m.cs[k - 1] else null
      invariant c != null ==> pc == if 0 < j <= n then m.cs[j - 1] else null
      decreases |m.cs| - n
    {
      assert i == m.cs[n];
      if i.next == sel {
        p := i;
      }
      if i.next == c {
        pc := i;
      }
      i, n := i.next, n + 1;
    }
  }

  /** Where the link of the client at place i leads once places k and j are swapped. */
  function NewNext(s: seq<Client>, k: nat, j: nat, i: nat): Client?
    requires k < |s| && j < |s| && i < |s|
  {
    if i == k then (if j + 1 == k then s[j] else At(s, j + 1))
    else if i == j then (if j == k + 1 then s[k] else At(s, k + 1))
    else if i + 1 == k then s[j]
    else if i + 1 == j then s[k]
    else At(s, i + 1)
  }

  lemma SwappedLinks(s: seq<Client>, k: nat, j: nat, n: nat)
    requires k < |s| && j < |s| && k != j && n < |s|
    ensures NewNext(s, k, j, if n == k then j else if n == j then k else n) == At(Swap(s, k, j), n + 1)
    ensures Swap(s, k, j)[n] == s[if n == k then j else if n == j then k else n]
  {
  }

  lemma Different(s: seq<Client>, i: nat, k: int)
    requires NoDup(s) && i < |s| && k < |s| && i != k
    ensures k >= 0 ==> s[i] != s[k]
  {
  }

  /** The new links of the two clients themselves. */
  method SwapOwn(ghost s: seq<Client>, sel: Client, c: Client, ghost k: nat, ghost j: nat)
    requires NoDup(s) && k < |s| && j < |s| && k != j && s[k] == sel && s[j] == c
    requires sel.next == At(s, k + 1) && c.next == At(s, j + 1)
    modifies sel`next, c`next
    ensures sel.next == NewNext(s, k, j, k) && c.next == NewNext(s, k, j, j)
  {
    hide NoDup;
    Different(s, k, j);
    if k + 1 < |s| && k + 1 != j {
      Different(s, k + 1, j);
    }
    if j + 1 < |s| && j + 1 != k {
      Different(s, j + 1, k);
    }
    var temp := if sel.next == c then sel else sel.next;
    sel.next := if c.next == sel then c else c.next;
    c.next := temp;
  }

  /** The new links of the clients before the two, after those of the two themselves. */
  lemma Patched(s: seq<Client>, k: nat, j: nat, i: nat)
    requires NoDup(s) && k < |s| && j < |s| && k != j && i < |s|
    ensures NewNext(s, k, j, i) ==
      if s[i] == Previous(s, j) && s[i] != s[k] then s[k]
      else if s[i] == Previous(s, k) && s[i] != s[j] then s[j]
      else if s[i] == s[k] then NewNext(s, k, j, k)
      else if s[i] == s[j] then NewNext(s, k, j, j)
      else At(s, i + 1)
  {
    hide NoDup;
    if i != k {
      Different(s, i, k);
    }
    if i != j {
      Different(s, i, j);
    }
    if i != k - 1 {
      Different(s, i, k - 1);
    }
    if i != j - 1 {
      Different(s, i, j - 1);
    }
  }

  /** The rewriting of the links for clients at different places. */
  method SwapLinks(m: Monitor, sel: Client, c: Client, p: Client?, pc: Client?, ghost k: nat, ghost j: nat)
    requires m.ClientsLinked() && k < |m.cs| && j < |m.cs| && k != j && m.cs[k] == sel && m.cs[j] == c
    requires p == Previous(m.cs, k) && pc == Previous(m.cs, j)
    modifies m.cs`next
    ensures forall i | 0 <= i < |m.cs| :: m.cs[i].next == NewNext(m.cs, k, j, i)
  {
    ghost var s := m.cs;
    assert NoDup(s) && forall i | 0 <= i < |s| :: s[i].next == At(s, i + 1);
    assert p != null ==> p in s;
    assert pc != null ==> pc in s;
    hide NoDup, Monitor.ClientsLinked, At, NewNext, Previous;
    SwapOwn(s, sel, c, k, j);
    if p != null && p != c {
      p.next := c;
    }
    if pc != null && pc != sel {
      pc.next := sel;
    }
    forall i | 0 <= i < |s| ensures s[i].next == NewNext(s, k, j, i) {
      Patched(s, k, j, i);
    }
  }

  /** The swap of sel and c in the list. */
  method SwapClients(m: Monitor, sel: Client, c: Client, p: Client?, pc: Client?, ghost k: nat, ghost j: nat)
    requires m.ClientsLinked() && k < |m.cs| && j < |m.cs| && k != j && m.cs[k] == sel && m.cs[j] == c
    requires p == Previous(m.cs, k) && pc == Previous(m.cs, j)
    modifies m`clients, m`cs, m.cs`next
    ensures m.ClientsLinked() && m.cs == Swap(old(m.cs), k, j)
  {
    hide NewNext, Swap;
    ghost var s := m.cs;
    SwapLinks(m, sel, c, p, pc, k, j);
    if sel == m.clients {
      m.clients := c;
    } else if c == m.clients {
      m.clients := sel;
    }
    m.cs := Swap(s, k, j);
    SwapHead(s, k, j);
    Relinked(m, s, k, j);
  }

  lemma SwapHead(s: seq<Client>, k: nat, j: nat)
    requires k < |s| && j < |s| && k != j
    ensures At(Swap(s, k, j), 0) == if k == 0 then s[j] else if j == 0 then s[k] else s[0]
  {
  }

  lemma Relinked(m: Monitor, s: seq<Client>, k: nat, j: nat)
    requires k < |s| && j < |s| && k != j && NoDup(s)
    requires m.cs == Swap(s, k, j) && m.clients == At(m.cs, 0)
    requires forall i | 0 <= i < |s| :: s[i].next == NewNext(s, k, j, i)
    ensures m.ClientsLinked()
  {
    SwapNoDup(s, k, j);
    forall n | 0 <= n < |s| ensures m.cs[n].next == At(m.cs, n + 1) {
      SwappedLinks(s, k, j, n);
    }
  }

  /** The client that changes places with the selected one, null when there is no tiled visible client. */
  method FindNeighbour(m: Monitor, dir: int, ghost k: nat) returns (c: Client?)
    requires Listed(m) && m.sel != null && k < |m.cs| && m.cs[k] == m.sel
    ensures c == At(m.cs, Neighbour(m.cs, Tiled(m), k, dir))
  {
    hide On, FirstIn, LastIn, Tiled;
    if dir > 0 {
      c := NextTiled(m, m.sel.next, k + 1);
      if c == null {
        c := NextTiled(m, m.clients, 0);
      }
    } else {
      c := PrevTiled(m, m.sel, k);
    }
  }

  /** movestack on the selected monitor */
  method MoveStack(m: Monitor, dir: int, ghost k: nat)
    requires Listed(m) && m.sel != null && k < |m.cs| && m.cs[k] == m.sel
    modifies m`clients, m`cs, m.cs`next
    ensures m.ClientsLinked() && m.cs == Moved(old(m.cs), old(Tiled(m)), k, dir)
  {
    hide On, Neighbour, Tiled, Swap;
    SwapSelf(m.cs, k);
    ghost var j := Neighbour(m.cs, Tiled(m), k, dir);
    var c := FindNeighbour(m, dir, k);
    var p, pc := Before(m, m.sel, c, k, j);
    if c != null && c != m.sel {
      SwapClients(m, m.sel, c, p, pc, k, j);
    }
  }
}
