/**
  * The scrollback ring of st.c: HISTSIZE slots, an index of the newest row and a fill count, seen as a
  * bounded sequence with the oldest row first.
  */
module Ring {

  const HISTSIZE: int := 2000

  /** The slot of row y < 0 above the screen (TLINEABS). */
  function Slot(histi: nat, y: int): (k: nat)
    requires -HISTSIZE <= y < 0
    ensures k < HISTSIZE
  {
    (histi + y + 1 + HISTSIZE) % HISTSIZE
  }

  function Stored<T>(ring: seq<T>, histi: nat, histf: nat): (s: seq<T>)
    requires |ring| == HISTSIZE && histi < HISTSIZE && histf <= HISTSIZE
    ensures |s| == histf
    ensures forall i | 0 <= i < histf :: s[i] == ring[Slot(histi, i - histf)]
  {
    seq(histf, i requires 0 <= i < histf => ring[Slot(histi, i - histf)])
  }

  function LastN<T>(s: seq<T>, n: nat): (r: seq<T>)
    ensures |r| <= n
  {
    if |s| <= n then s else s[|s| - n..]
  }

  function Next(histi: nat): (k: nat)
    ensures k < HISTSIZE
  {
    (histi + 1) % HISTSIZE
  }

  function Prev(histi: nat): (k: nat)
    ensures k < HISTSIZE
  {
    (histi - 1 + HISTSIZE) % HISTSIZE
  }

  function Capped(histf: nat): nat {
    if histf < HISTSIZE then histf else HISTSIZE
  }

  lemma SlotInjective(histi: nat, y: int, z: int)
    requires histi < HISTSIZE && -HISTSIZE <= y < 0 && -HISTSIZE <= z < 0
    ensures Slot(histi, y) == Slot(histi, z) ==> y == z
  {
  }

  lemma SlotNext(histi: nat, y: int)
    requires histi < HISTSIZE && -HISTSIZE < y < 0
    ensures Slot(Next(histi), y - 1 + 0) == Slot(histi, y)
    ensures Slot(Next(histi), -1) == Next(histi)
    ensures Slot(Next(histi), y - 1) != Next(histi)
  {
  }

  /** Storing a row after the newest one appends it and drops the oldest row of a full ring. */
  lemma PushStores<T>(ring: seq<T>, histi: nat, histf: nat, x: T)
    requires |ring| == HISTSIZE && histi < HISTSIZE && histf <= HISTSIZE
    ensures Stored(ring[Next(histi) := x], Next(histi), Capped(histf + 1))
            == LastN(Stored(ring, histi, histf) + [x], HISTSIZE)
  {
    var a := Stored(ring[Next(histi) := x], Next(histi), Capped(histf + 1));
    var b := LastN(Stored(ring, histi, histf) + [x], HISTSIZE);
    var n := Capped(histf + 1);
    assert |a| == |b| == n;
    forall i | 0 <= i < n ensures a[i] == b[i] {
      if i < n - 1 {
        SlotNext(histi, i - n + 1);
      } else {
        SlotNext(histi, -1);
      }
    }
  }

  /** Taking the newest row out leaves the others, whatever is left in its slot. */
  lemma PopRemoves<T>(ring: seq<T>, histi: nat, histf: nat, x: T)
    requires |ring| == HISTSIZE && histi < HISTSIZE && 0 < histf <= HISTSIZE
    ensures ring[histi] == Stored(ring, histi, histf)[histf - 1]
    ensures Stored(ring[histi := x], Prev(histi), histf - 1) == Stored(ring, histi, histf)[..histf - 1]
  {
    var a := Stored(ring[histi := x], Prev(histi), histf - 1);
    var b := Stored(ring, histi, histf)[..histf - 1];
    forall i | 0 <= i < histf - 1 ensures a[i] == b[i] {
      assert Slot(Prev(histi), i - histf + 1) == Slot(histi, i - histf);
      assert Slot(histi, i - histf) != histi;
    }
  }

  lemma LastNAppend<T>(s: seq<T>, t: seq<T>, n: nat)
    ensures LastN(LastN(s, n) + t, n) == LastN(s + t, n)
  {
  }

  /** The row number of a slot: inverse of Slot. */
  function Unslot(histi: nat, k: nat): (y: int)
    requires histi < HISTSIZE && k < HISTSIZE
    ensures 0 - HISTSIZE <= y < 0 && Slot(histi, y) == k
  {
    if k <= histi then k - histi - 1 else k - histi - 1 - HISTSIZE
  }

  /** Writing the slot of row y changes row y. */
  lemma StoreAt<T>(ring: seq<T>, histi: nat, y: int, x: T)
    requires |ring| == HISTSIZE && histi < HISTSIZE && 0 - HISTSIZE <= y < 0
    ensures Stored(ring[Slot(histi, y) := x], histi, HISTSIZE) == Stored(ring, histi, HISTSIZE)[HISTSIZE + y := x]
  {
    var a, b := Stored(ring[Slot(histi, y) := x], histi, HISTSIZE), Stored(ring, histi, HISTSIZE)[HISTSIZE + y := x];
    forall i | 0 <= i < HISTSIZE ensures a[i] == b[i] {
      SlotInjective(histi, i - HISTSIZE, y);
    }
  }

  lemma UpdateTail<T>(s: seq<T>, k: nat, x: T)
    requires k < |s|
    ensures s[k := x][k..] == [x] + s[k + 1..]
  {
  }

  /** The rows of a full ring are its slots in another order. */
  lemma StoredIsOnto<T>(ring: seq<T>, histi: nat, k: nat)
    requires |ring| == HISTSIZE && histi < HISTSIZE && k < HISTSIZE
    ensures ring[k] == Stored(ring, histi, HISTSIZE)[HISTSIZE + Unslot(histi, k)]
  {
  }

  lemma StoredNewest<T>(ring: seq<T>, histi: nat, f: nat)
    requires |ring| == HISTSIZE && histi < HISTSIZE && f <= HISTSIZE
    ensures Stored(ring, histi, f) == Stored(ring, histi, HISTSIZE)[HISTSIZE - f..]
  {
  }

  lemma StoredNoDup<T>(ring: seq<T>, histi: nat)
    requires |ring| == HISTSIZE && histi < HISTSIZE
    requires forall i, j | 0 <= i < j < HISTSIZE :: Stored(ring, histi, HISTSIZE)[i] != Stored(ring, histi, HISTSIZE)[j]
    ensures forall i, j | 0 <= i < j < HISTSIZE :: ring[i] != ring[j]
  {
    forall i, j | 0 <= i < j < HISTSIZE ensures ring[i] != ring[j] {
      StoredIsOnto(ring, histi, i);
      StoredIsOnto(ring, histi, j);
      assert Unslot(histi, i) != Unslot(histi, j);
    }
  }
}
