/**
 The blink list of blink.S where it lives: links between slots of one static array, a free slot
 being one at location 0.
 */
module BlinkList {
  import opened Bytes
  import opened BlinkSpec

  /** One element of blink_array. A link is 0 at the end of the list, or one more than a slot's index. */
  datatype Slot = Slot(b: Blink, next: nat)

  function LinkAt(chain: seq<nat>, k: nat): nat {
    if k < |chain| then chain[k] + 1 else 0
  }

  /** From `head`, the links visit exactly the slots of `chain`, and those are the slots in use, once each. */
  ghost predicate ChainOk(h: seq<Slot>, head: nat, chain: seq<nat>) {
    && |h| == CELLS && head == LinkAt(chain, 0)
    && (forall k {:trigger chain[k]} :: 0 <= k < |chain| ==> chain[k] < |h|)
    && (forall k {:trigger h[chain[k]]} :: 0 <= k < |chain| ==> h[chain[k]].next == LinkAt(chain, k + 1))
    && (forall j, k {:trigger chain[j], chain[k]} :: 0 <= j < k < |chain| ==> chain[j] != chain[k])
    && (forall i {:trigger h[i]} :: 0 <= i < |h| ==> (h[i].b.location != 0 <==> i in chain))
  }

  /** The links from `head` form a proper list over the slots in use. */
  ghost predicate IsList(h: seq<Slot>, head: nat) {
    exists chain :: ChainOk(h, head, chain)
  }

  ghost function ListOf(h: seq<Slot>, chain: seq<nat>): (list: seq<Blink>)
    requires forall k {:trigger chain[k]} :: 0 <= k < |chain| ==> chain[k] < |h|
    ensures |list| == |chain| && forall k {:trigger list[k]} :: 0 <= k < |chain| ==> list[k] == h[chain[k]].b
  {
    seq(|chain|, k requires 0 <= k < |chain| => h[chain[k]].b)
  }

  lemma ConsKeepsChain(h: seq<Slot>, head: nat, chain: seq<nat>, i: nat, b: Blink)
    requires ChainOk(h, head, chain) && i < |h| && h[i].b.location == 0 && b.location != 0
    ensures ChainOk(h[i := Slot(b, head)], i + 1, [i] + chain)
    ensures ListOf(h[i := Slot(b, head)], [i] + chain) == [b] + ListOf(h, chain)
  {
    var h', c' := h[i := Slot(b, head)], [i] + chain;
    forall k | 0 <= k < |chain| ensures chain[k] != i {
      assert chain[k] in chain;
    }
    forall k {:trigger h'[c'[k]]} | 0 <= k < |c'| ensures h'[c'[k]].next == LinkAt(c', k + 1) {
      if k > 0 {
        assert h[chain[k - 1]].next == LinkAt(chain, k);
      }
    }
    forall x {:trigger h'[x]} | 0 <= x < |h'| ensures h'[x].b.location != 0 <==> x in c' {
      assert h[x].b.location != 0 <==> x in chain;
    }
  }

  lemma NoListWithFreeSlot(h: seq<Slot>, i: nat, chain: seq<nat>)
    requires i < |h| && h[i].b.location == 0
    ensures !ChainOk(h, i + 1, chain)
  {
    if 0 < |chain| {
      assert chain[0] in chain;
    }
  }

  /**
   Putting a blink into a free slot at the front keeps the list exactly when its location is not 0:
   a slot at location 0 is on the list and yet looks free.
   */
  lemma AddKeepsList(h: seq<Slot>, head: nat, chain: seq<nat>, i: nat, b: Blink)
    requires ChainOk(h, head, chain) && i < |h| && h[i].b.location == 0
    ensures IsList(h[i := Slot(b, head)], i + 1) <==> b.location != 0
  {
    hide ChainOk;
    var h', head' := h[i := Slot(b, head)], i + 1;
    if b.location != 0 {
      ConsKeepsChain(h, head, chain, i, b);
    } else {
      forall c ensures !ChainOk(h', head', c) {
        NoListWithFreeSlot(h', i, c);
      }
    }
  }

  /** mp1_malloc: the first slot that looks free. */
  function FreeSlot(h: seq<Slot>, k: nat): (i: nat)
    requires k <= |h|
    ensures k <= i <= |h| && (i < |h| ==> h[i].b.location == 0)
    ensures forall j {:trigger h[j]} :: k <= j < i ==> h[j].b.location != 0
    decreases |h| - k
  {
    if k == |h| || h[k].b.location == 0 then k else FreeSlot(h, k + 1)
  }

  lemma {:induction false} SameFreeSlot(h: seq<Slot>, i: nat, s: Slot, k: nat)
    requires k <= i < |h| && FreeSlot(h, k) == i && s.b.location == 0
    ensures FreeSlot(h[i := s], k) == i
    decreases i - k
  {
    if k < i {
      SameFreeSlot(h, i, s, k + 1);
    }
  }

  /** The heap after the j-th element has been unlinked and its slot zeroed. */
  ghost function Unlinked(h: seq<Slot>, chain: seq<nat>, j: nat): seq<Slot>
    requires j < |chain| && forall k {:trigger chain[k]} :: 0 <= k < |chain| ==> chain[k] < |h|
  {
    var linked := if j == 0 then h else h[chain[j - 1] := h[chain[j - 1]].(next := LinkAt(chain, j + 1))];
    linked[chain[j] := Slot(ZERO_BLINK, 0)]
  }

  /** Element k of a sequence that has lost its j-th. */
  lemma CutAt<T>(s: seq<T>, j: nat, k: nat)
    requires j < |s| && k < |s| - 1
    ensures (s[..j] + s[j + 1..])[k] == s[if k < j then k else k + 1]
  {
  }

  ghost function Without(chain: seq<nat>, j: nat): seq<nat>
    requires j < |chain|
  {
    chain[..j] + chain[j + 1..]
  }

  /** Element k of the shortened list: unchanged, and linked to its new successor. */
  lemma UnlinkedAt(h: seq<Slot>, head: nat, chain: seq<nat>, j: nat, k: nat)
    requires ChainOk(h, head, chain) && j < |chain| && k < |chain| - 1
    ensures var h', c' := Unlinked(h, chain, j), Without(chain, j);
      c'[k] < |h'| && h'[c'[k]].next == LinkAt(c', k + 1) && h'[c'[k]].b == h[c'[k]].b
  {
    var from := if k < j then k else k + 1;
    assert Without(chain, j)[k] == chain[from];
    assert chain[from] != chain[j];
    if j > 0 && from != j - 1 {
      assert chain[from] != chain[j - 1];
    }
  }

  lemma WithoutIsDistinct(h: seq<Slot>, head: nat, chain: seq<nat>, j: nat, a: nat, b: nat)
    requires ChainOk(h, head, chain) && j < |chain| && a < b < |chain| - 1
    ensures Without(chain, j)[a] != Without(chain, j)[b]
  {
    var x, y := if a < j then a else a + 1, if b < j then b else b + 1;
    assert chain[x] != chain[y];
  }

  lemma RemoveKeepsChain(h: seq<Slot>, head: nat, chain: seq<nat>, j: nat)
    requires ChainOk(h, head, chain) && j < |chain|
    ensures ChainOk(Unlinked(h, chain, j), if j == 0 then LinkAt(chain, 1) else head, Without(chain, j))
  {
    var h', c' := Unlinked(h, chain, j), Without(chain, j);
    assert |h'| == |h| && |c'| == |chain| - 1 && LinkAt(c', 0) == if j == 0 then LinkAt(chain, 1) else head;
    hide Unlinked, Without;
    forall k {:trigger c'[k]} | 0 <= k < |c'| ensures c'[k] < |h'| {
      UnlinkedAt(h, head, chain, j, k);
    }
    forall k {:trigger h'[c'[k]]} | 0 <= k < |c'| ensures h'[c'[k]].next == LinkAt(c', k + 1) {
      UnlinkedAt(h, head, chain, j, k);
    }
    forall a, b {:trigger c'[a], c'[b]} | 0 <= a < b < |c'| ensures c'[a] != c'[b] {
      WithoutIsDistinct(h, head, chain, j, a, b);
    }
    forall i {:trigger h'[i]} | 0 <= i < |h'| ensures h'[i].b.location != 0 <==> i in c' {
      OccupiedWithout(h, head, chain, j, i);
    }
  }

  lemma RemoveDropsOne(h: seq<Slot>, head: nat, chain: seq<nat>, j: nat)
    requires ChainOk(h, head, chain) && j < |chain|
    requires ChainOk(Unlinked(h, chain, j), if j == 0 then LinkAt(chain, 1) else head, Without(chain, j))
    ensures ListOf(Unlinked(h, chain, j), Without(chain, j)) == ListOf(h, chain)[..j] + ListOf(h, chain)[j + 1..]
  {
    var h', c' := Unlinked(h, chain, j), Without(chain, j);
    var l', l := ListOf(h', c'), ListOf(h, chain);
    hide ChainOk, Unlinked;
    forall k | 0 <= k < |c'| ensures l'[k] == (l[..j] + l[j + 1..])[k] {
      UnlinkedAt(h, head, chain, j, k);
      CutAt(chain, j, k);
      CutAt(l, j, k);
    }
  }

  lemma OccupiedWithout(h: seq<Slot>, head: nat, chain: seq<nat>, j: nat, i: nat)
    requires ChainOk(h, head, chain) && j < |chain| && i < |h|
    ensures Unlinked(h, chain, j)[i].b.location != 0 <==> i in Without(chain, j)
  {
    InWithout(chain, j, i);
    assert h[i].b.location != 0 <==> i in chain;
  }

  lemma InWithout(chain: seq<nat>, j: nat, i: nat)
    requires j < |chain| && forall a, b {:trigger chain[a], chain[b]} :: 0 <= a < b < |chain| ==> chain[a] != chain[b]
    ensures i in Without(chain, j) <==> i in chain && i != chain[j]
  {
    if i in chain && i != chain[j] {
      var k :| 0 <= k < |chain| && chain[k] == i;
      assert Without(chain, j)[if k < j then k else k - 1] == i;
    }
    if i in Without(chain, j) {
      var k :| 0 <= k < |chain| - 1 && Without(chain, j)[k] == i;
      assert chain[if k < j then k else k + 1] == i;
    }
  }

  /** Changing a listed blink but not its location changes one element of the list and no link. */
  lemma UpdateKeepsChain(h: seq<Slot>, head: nat, chain: seq<nat>, k: nat, b: Blink)
    requires ChainOk(h, head, chain) && k < |chain| && b.location == h[chain[k]].b.location
    ensures ChainOk(h[chain[k] := h[chain[k]].(b := b)], head, chain)
    ensures ListOf(h[chain[k] := h[chain[k]].(b := b)], chain) == ListOf(h, chain)[k := b]
  {
    var h' := h[chain[k] := h[chain[k]].(b := b)];
    forall i {:trigger h'[i]} | 0 <= i < |h'| ensures h'[i].b.location != 0 <==> i in chain {
      assert h[i].b.location != 0 <==> i in chain;
    }
  }

  /** Following the link of the k-th listed slot. */
  lemma Follow(h: seq<Slot>, head: nat, chain: seq<nat>, k: nat)
    requires ChainOk(h, head, chain) && k < |chain|
    ensures chain[k] < |h| && h[chain[k]].next == LinkAt(chain, k + 1)
  {
  }

  lemma HeadIsFirst(h: seq<Slot>, head: nat, chain: seq<nat>)
    requires ChainOk(h, head, chain)
    ensures head == LinkAt(chain, 0) && forall k {:trigger chain[k]} :: 0 <= k < |chain| ==> chain[k] < |h|
  {
  }

  lemma DifferentSlots(h: seq<Slot>, head: nat, chain: seq<nat>, j: nat, k: nat)
    requires ChainOk(h, head, chain) && j < |chain| && k < |chain| && j != k
    ensures chain[j] != chain[k]
  {
  }

  // ---------- when the array is full ----------

  function Elements(chain: seq<nat>): (s: set<nat>)
    ensures forall x :: x in s <==> x in chain
  {
    set x | x in chain
  }

  lemma {:induction false} DistinctCount(chain: seq<nat>)
    requires forall j, k {:trigger chain[j], chain[k]} :: 0 <= j < k < |chain| ==> chain[j] != chain[k]
    ensures |Elements(chain)| == |chain|
  {
    if chain != [] {
      var init, last := chain[..|chain| - 1], chain[|chain| - 1];
      DistinctCount(init);
      assert Elements(chain) == Elements(init) + {last};
    }
  }

  function Below(n: nat): (s: set<nat>)
    ensures |s| == n && forall x: nat :: x in s <==> x < n
  {
    if n == 0 then {}
    else
      var r := Below(n - 1);
      assert n - 1 !in r;
      r + {n - 1}
  }

  lemma SubsetCount(a: set<nat>, b: set<nat>)
    requires a <= b
    ensures |a| <= |b| && (|a| == |b| ==> a == b)
  {
    var rest := b - a;
    assert b == a + rest && |b| == |a| + |rest|;
  }

  /** No slot looks free exactly when the list has 2000 elements. */
  lemma FullWhenAllListed(h: seq<Slot>, head: nat, chain: seq<nat>)
    requires ChainOk(h, head, chain)
    ensures |chain| <= CELLS && (FreeSlot(h, 0) == CELLS <==> |chain| == CELLS)
  {
    var used, all := Elements(chain), Below(CELLS);
    DistinctCount(chain);
    SubsetCount(used, all);
    if FreeSlot(h, 0) == CELLS {
      forall i | i in all ensures i in used {
        assert h[i].b.location != 0;
      }
      assert used == all;
    } else {
      var i := FreeSlot(h, 0);
      assert i in all && i !in used;
    }
  }

  // ---------- the memory as it is ----------

  /** The array, the list head and the screen, whether or not the links form a proper list. */
  datatype Tank = Tank(slots: seq<Slot>, head: nat, video: bytes)

  predicate Sound(t: Tank) {
    |t.slots| == CELLS && |t.video| == CELLS
  }

  /** What an add does to the memory, at every location. */
  function Inserted(t: Tank, b: Blink): (u: Tank)
    requires Sound(t)
    ensures Sound(u)
  {
    var i := FreeSlot(t.slots, 0);
    if b.location >= CELLS || i == CELLS then t
    else Tank(t.slots[i := Slot(Started(b), t.head)], i + 1, t.video[b.location := b.onChar])
  }

  /** The memory after a whole list of adds. */
  function InsertAll(t: Tank, requests: seq<Blink>): (u: Tank)
    requires Sound(t)
    ensures Sound(u)
    decreases |requests|
  {
    if requests == [] then t else InsertAll(Inserted(t, requests[0]), requests[1..])
  }

  /** Two adds at location 0 share the slot, which then links to itself. */
  lemma TwoAtLocationZeroLoop(t: Tank, a: Blink, b: Blink)
    requires Sound(t) && FreeSlot(t.slots, 0) < CELLS && a.location == 0 && b.location == 0
    ensures var i, u := FreeSlot(t.slots, 0), Inserted(Inserted(t, a), b);
      && u.head == i + 1 && u.slots[i] == Slot(Started(b), i + 1)
      && !IsList(u.slots, u.head)
  {
    LocationZeroIsBroken(t, a);
    BrokenStaysBroken(Inserted(t, a), b);
    BrokenIsNoList(Inserted(Inserted(t, a), b));
    SameFreeSlot(t.slots, FreeSlot(t.slots, 0), Slot(Started(a), t.head), 0);
  }

  /** The head slot looks free and is the next to be taken, or some slot in use links to itself. */
  ghost predicate Broken(t: Tank)
    requires Sound(t)
  {
    || (FreeSlot(t.slots, 0) < CELLS && t.head == FreeSlot(t.slots, 0) + 1)
    || exists i {:trigger t.slots[i]} :: 0 <= i < CELLS && t.slots[i].b.location != 0 && t.slots[i].next == i + 1
  }

  lemma LocationZeroIsBroken(t: Tank, a: Blink)
    requires Sound(t) && FreeSlot(t.slots, 0) < CELLS && a.location == 0
    ensures Broken(Inserted(t, a))
  {
    SameFreeSlot(t.slots, FreeSlot(t.slots, 0), Slot(Started(a), t.head), 0);
  }

  lemma BrokenStaysBroken(t: Tank, b: Blink)
    requires Sound(t) && Broken(t)
    ensures Broken(Inserted(t, b))
  {
    var i, u := FreeSlot(t.slots, 0), Inserted(t, b);
    if b.location < CELLS && i < CELLS {
      if t.head == i + 1 {
        if b.location == 0 {
          SameFreeSlot(t.slots, i, Slot(Started(b), t.head), 0);
        } else {
          assert u.slots[i].b.location != 0 && u.slots[i].next == i + 1;
        }
      } else {
        var j :| 0 <= j < CELLS && t.slots[j].b.location != 0 && t.slots[j].next == j + 1;
        assert u.slots[j] == t.slots[j];
      }
    }
  }

  lemma LinksLeaveTheirSlot(h: seq<Slot>, head: nat, chain: seq<nat>, k: nat)
    requires ChainOk(h, head, chain) && k < |chain|
    ensures h[chain[k]].next != chain[k] + 1
  {
    Follow(h, head, chain, k);
  }

  lemma SelfLinkIsNoChain(h: seq<Slot>, head: nat, chain: seq<nat>, i: nat)
    requires i < |h| && h[i].b.location != 0 && h[i].next == i + 1
    ensures !ChainOk(h, head, chain)
  {
    if ChainOk(h, head, chain) {
      assert i in chain;
      var k :| 0 <= k < |chain| && chain[k] == i;
      LinksLeaveTheirSlot(h, head, chain, k);
      assert false;
    }
  }

  lemma BrokenIsNoList(t: Tank)
    requires Sound(t) && Broken(t)
    ensures !IsList(t.slots, t.head)
  {
    hide ChainOk;
    var i := FreeSlot(t.slots, 0);
    forall chain ensures !ChainOk(t.slots, t.head, chain) {
      if i < CELLS && t.head == i + 1 {
        NoListWithFreeSlot(t.slots, i, chain);
      } else {
        var j :| 0 <= j < CELLS && t.slots[j].b.location != 0 && t.slots[j].next == j + 1;
        SelfLinkIsNoChain(t.slots, t.head, chain, j);
      }
    }
  }

  /** Once a blink has been added at location 0, no further adds ever make the links a proper list again. */
  lemma {:induction false} LocationZeroNeverMends(t: Tank, a: Blink, requests: seq<Blink>)
    requires Sound(t) && FreeSlot(t.slots, 0) < CELLS && a.location == 0
    ensures var u := InsertAll(Inserted(t, a), requests); !IsList(u.slots, u.head)
  {
    LocationZeroIsBroken(t, a);
    AddsStayBroken(Inserted(t, a), requests);
    BrokenIsNoList(InsertAll(Inserted(t, a), requests));
  }

  lemma {:induction false} AddsStayBroken(t: Tank, requests: seq<Blink>)
    requires Sound(t) && Broken(t)
    ensures Broken(InsertAll(t, requests))
    decreases |requests|
  {
    hide Broken, Inserted;
    if requests != [] {
      BrokenStaysBroken(t, requests[0]);
      AddsStayBroken(Inserted(t, requests[0]), requests[1..]);
    }
  }

  // ---------- the code ----------

  class Fishtank {
    const slots: array<Slot>
    const video: array<byte>
    var head: nat
    ghost var chain: seq<nat>
    // every add that was ever asked for, whether or not it succeeded
    ghost var issued: seq<Blink>

    ghost function State(): Tank
      reads this, slots, video
    {
      Tank(slots[..], head, video[..])
    }

    ghost predicate Chained()
      reads this, slots
    {
      ChainOk(slots[..], head, chain)
    }

    ghost function View(): Fish
      requires Chained()
      reads this, slots, video
    {
      Fish(ListOf(slots[..], chain), video[..])
    }

    ghost predicate Valid()
      reads this, slots, video
    {
      Sound(State()) && Chained() && Ok(View())
    }

    /** The zeroed array and an empty list; the screen may hold anything. */
    constructor (video: array<byte>)
      requires video.Length == CELLS
      ensures Valid() && View() == Fish([], video[..]) && this.video == video && fresh(slots) && issued == []
    {
      slots := new Slot[CELLS](_ => Slot(ZERO_BLINK, 0));
      this.video := video;
      head, chain, issued := 0, [], [];
    }

    method Get(i: nat) returns (s: Slot)
      requires i < slots.Length
      ensures s == slots[..][i]
    {
      s := slots[i];
    }

    method Set(i: nat, s: Slot)
      requires i < slots.Length
      modifies slots
      ensures slots[..] == old(slots[..])[i := s]
    {
      slots[i] := s;
    }

    method Poke(location: nat, c: byte)
      requires location < video.Length
      modifies video
      ensures video[..] == old(video[..])[location := c]
    {
      video[location] := c;
    }

    /** mp1_malloc: the index of the first slot that looks free, or 2000. */
    method Malloc() returns (i: nat)
      requires slots.Length == CELLS
      ensures i == FreeSlot(slots[..], 0)
    {
      ghost var h := slots[..];
      i := 0;
      while i < CELLS
        invariant 0 <= i <= CELLS && FreeSlot(h, i) == FreeSlot(h, 0)
      {
        var s := Get(i);
        if s.b.location == 0 {
          return;
        }
        i := i + 1;
      }
    }

    /**
     mp1_ioctl_add. The first two clauses hold in every memory: the add fails, changing nothing, when the
     location is off the screen or no slot looks free; otherwise the blink is in the first free-looking slot,
     on, drawn and at the list head. From a proper list, no slot looks free exactly when 2000 are listed,
     and the list stays proper exactly when the location is not 0.
     */
    method Add(b: Blink) returns (r: int)
      requires Sound(State()) && Sized(b)
      modifies this, slots, video
      ensures State() == Inserted(old(State()), b) && issued == old(issued) + [b]
      ensures r == if b.location >= CELLS || FreeSlot(old(slots[..]), 0) == CELLS then -1 else 0
      ensures old(Valid()) ==> (r == -1 <==> b.location >= CELLS || |old(View()).list| == CELLS)
      ensures old(Valid()) && r == -1 ==> Valid() && View() == old(View())
      ensures old(Valid()) && r == 0 ==> (IsList(slots[..], head) <==> b.location != 0)
      ensures old(Valid()) && r == 0 && b.location != 0 ==> Valid() && View() == AddedTo(old(View()), b)
    {
      hide ChainOk, FreeSlot, ListOf, IsList;
      ghost var proper := Valid();
      issued := issued + [b];
      if proper {
        FullWhenAllListed(slots[..], head, chain);
      }
      if b.location >= CELLS {
        return -1;
      }
      var i := Malloc();
      if i == CELLS {
        return -1;
      }
      ghost var h := slots[..];
      if proper {
        AddKeepsList(h, head, chain, i, Started(b));
        if b.location != 0 {
          ConsKeepsChain(h, head, chain, i, Started(b));
        }
      }
      Set(i, Slot(Started(b), head));
      head := i + 1;
      chain := [i] + chain;
      Poke(b.location, b.onChar);
      r := 0;
    }

    /** mp1_find_helper: the link to the first listed blink at the location, or 0. */
    method FindHelper(location: nat) returns (p: nat)
      requires Valid()
      ensures p == LinkAt(chain, FirstAt(View().list, location % U16, 0))
    {
      hide ChainOk, Ok;
      ghost var h, list := slots[..], View().list;
      HeadIsFirst(h, head, chain);
      var ax := location % U16;
      p := head;
      ghost var k := 0;
      while p != 0
        invariant 0 <= k <= |chain| && p == LinkAt(chain, k)
        invariant FirstAt(list, ax, k) == FirstAt(list, ax, 0)
        decreases |chain| - k
      {
        Follow(h, head, chain, k);
        var s := Get(p - 1);
        if s.b.location == ax {
          return;
        }
        p := s.next;
        k := k + 1;
      }
    }

    /** The walk of mp1_ioctl_remove to the link that leads to p; 0 stands for the list head itself. */
    method FindPrevious(p: nat, ghost j: nat) returns (prev: nat)
      requires Valid() && j < |chain| && p == chain[j] + 1
      ensures prev == if j == 0 then 0 else chain[j - 1] + 1
    {
      hide ChainOk, Ok, ListOf;
      ghost var h := slots[..];
      HeadIsFirst(h, head, chain);
      prev := 0;
      var link := head;
      ghost var k := 0;
      while link != p
        invariant 0 <= k <= j && link == LinkAt(chain, k) && prev == if k == 0 then 0 else chain[k - 1] + 1
        decreases j - k
      {
        Follow(h, head, chain, k);
        prev := link;
        var s := Get(prev - 1);
        link := s.next;
        k := k + 1;
      }
      if k != j {
        DifferentSlots(h, head, chain, j, k);
      }
    }

    /** mp1_ioctl_remove: the first blink at the location leaves the list, and its slot is zeroed. */
    method Remove(location: nat) returns (r: int)
      requires Valid()
      modifies this`head, this`chain, slots
      ensures Valid() && View() == Removed(old(View()), location % U16)
      ensures var j := FirstAt(old(View()).list, location % U16, 0);
        if j == |old(chain)| then slots[..] == old(slots[..])
        else slots[..] == Unlinked(old(slots[..]), old(chain), j) && slots[..][old(chain)[j]] == Slot(ZERO_BLINK, 0)
      ensures r == if FirstAt(old(View()).list, location % U16, 0) < |old(View()).list| then 0 else -1
    {
      hide ChainOk, ListOf, Without, Unlinked;
      HeadIsFirst(slots[..], head, chain);
      var p := FindHelper(location);
      ghost var j := FirstAt(View().list, location % U16, 0);
      if p == 0 {
        return -1;
      }
      var prev := FindPrevious(p, j);
      ghost var h, f := slots[..], View();
      RemoveKeepsChain(h, head, chain, j);
      RemoveDropsOne(h, head, chain, j);
      Follow(h, head, chain, j);
      if j > 0 {
        DifferentSlots(h, head, chain, j - 1, j);
        Follow(h, head, chain, j - 1);
      }
      RemovedIsOk(f, location % U16);
      Unlink(p - 1, prev, j);
      chain := Without(chain, j);
      assert View() == Removed(f, location % U16);
      r := 0;
    }

    method Unlink(i: nat, prev: nat, ghost j: nat)
      requires slots.Length == CELLS && (forall k {:trigger chain[k]} :: 0 <= k < |chain| ==> chain[k] < CELLS)
      requires j < |chain| && i == chain[j] && prev == (if j == 0 then 0 else chain[j - 1] + 1)
      requires slots[..][i].next == LinkAt(chain, j + 1) && (j > 0 ==> chain[j - 1] != i)
      modifies this`head, slots
      ensures slots[..] == Unlinked(old(slots[..]), chain, j) && slots[..][i] == Slot(ZERO_BLINK, 0)
      ensures head == if j == 0 then LinkAt(chain, 1) else old(head)
    {
      var s := Get(i);
      if prev == 0 {
        head := s.next;
      } else {
        var q := Get(prev - 1);
        Set(prev - 1, q.(next := s.next));
      }
      Set(i, Slot(ZERO_BLINK, 0));
    }

    /** mp1_ioctl_sync: the locations are the two halves of one argument word. */
    method Sync(arg: nat) returns (r: int)
      requires Valid() && arg < 0x1_0000_0000
      modifies slots, video
      ensures Valid() && View() == SyncedAt(old(View()), arg / U16, arg % U16)
      ensures var l := old(View()).list;
        r == if FirstAt(l, arg / U16, 0) < |l| && FirstAt(l, arg % U16, 0) < |l| then 0 else -1
    {
      hide ChainOk, ListOf, Ok;
      var first, second := arg / U16, arg % U16;
      assert first % U16 == first && second % U16 == second;
      var esi := FindHelper(first);
      if esi == 0 {
        return -1;
      }
      var edi := FindHelper(second);
      if edi == 0 {
        return -1;
      }
      CopyPhase(esi - 1, edi - 1, FirstAt(View().list, first, 0), FirstAt(View().list, second, 0));
      r := 0;
    }

    /** The copy and the display of mp1_ioctl_sync, from the i-th listed blink to the j-th. */
    method CopyPhase(esi: nat, edi: nat, ghost i: nat, ghost j: nat)
      requires Valid() && i < |chain| && j < |chain| && esi == chain[i] && edi == chain[j]
      modifies slots, video
      ensures Valid()
      ensures var f := old(View());
        View() == Fish(f.list[j := Synced(f.list[i], f.list[j])], f.video[f.list[j].location := f.list[j].offChar])
    {
      hide ChainOk, ListOf;
      ghost var f := View();
      Follow(slots[..], head, chain, i);
      Follow(slots[..], head, chain, j);
      var source := Get(esi);
      var target := Get(edi);
      assert source.b == f.list[i] && target.b == f.list[j];
      UpdateKeepsChain(slots[..], head, chain, j, Synced(source.b, target.b));
      Set(edi, target.(b := Synced(source.b, target.b)));
      Poke(target.b.location, target.b.offChar);
    }

    /** mp1_rtc_tasklet: one walk of the list. */
    method Tasklet()
      requires Valid()
      modifies slots, video
      ensures Valid() && View() == TickedFrom(old(View()), 0)
    {
      hide ChainOk, ListOf, Ok;
      assert head == LinkAt(chain, 0) by {
        HeadIsFirst(slots[..], head, chain);
      }
      var p := head;
      ghost var k := 0;
      while p != 0
        invariant Valid() && 0 <= k <= |chain| && p == LinkAt(chain, k)
        invariant TickedFrom(View(), k) == TickedFrom(old(View()), 0)
        decreases |chain| - k
      {
        Follow(slots[..], head, chain, k);
        var s := Get(p - 1);
        TickSlot(p - 1, k);
        p := s.next;
        k := k + 1;
      }
    }

    /** The body of the walk: count down, and at the end of a phase draw the other character and start the other phase. */
    method TickSlot(i: nat, ghost k: nat)
      requires Valid() && k < |chain| && i == chain[k]
      modifies slots, video
      ensures Valid()
      ensures var f := old(View()); var b := Ticked(f.list[k]);
        View() == Fish(f.list[k := b], if Expires(f.list[k]) then f.video[b.location := Shown(b)] else f.video)
    {
      hide ChainOk, ListOf;
      ghost var f := View();
      Follow(slots[..], head, chain, k);
      var s := Get(i);
      var b := s.b;
      assert b == f.list[k];
      UpdateKeepsChain(slots[..], head, chain, k, Ticked(b));
      var countdown := Decremented(b.countdown);
      if 0 < countdown < U16 / 2 {
        Set(i, s.(b := b.(countdown := countdown)));
      } else {
        var dx;
        if IsOn(b) {
          Poke(b.location, b.offChar);
          dx := b.offLength;
        } else {
          Poke(b.location, b.onChar);
          dx := b.onLength;
        }
        Set(i, s.(b := b.(countdown := dx, status := if b.status % 2 == 1 then b.status - 1 else b.status + 1)));
      }
    }
  }
}
