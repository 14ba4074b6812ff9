/**
 The kernel's intrusive circular list: nodes carrying only `prev` and `next`, linked into rings.

 A set of nodes is well linked when the links stay inside it and `prev` undoes `next`; its `next`
 links are then a permutation, given as a map by Next. Every operation is specified by what it does
 to that permutation of the whole set, so its contract covers all rings at once. Rings.dfy
 reads the permutations as rings, that is, as sequences of nodes.
 */
module ListHead {

  class Node {
    var prev: Node
    var next: Node

    constructor ()
      ensures prev == this && next == this
    {
      prev := this;
      next := this;
    }
  }

  type Links = map<Node, Node>

  ghost predicate WellLinked(U: set<Node>)
    reads U
  {
    && (forall x {:trigger x.next} :: x in U ==> x.next in U && x.next.prev == x)
    && (forall x {:trigger x.prev} :: x in U ==> x.prev in U && x.prev.next == x)
  }

  ghost function Next(U: set<Node>): (n: Links)
    reads U
  {
    map x | x in U :: x.next
  }

  ghost predicate Injective(n: Links) {
    forall x, y :: x in n && y in n && n[x] == n[y] ==> x == y
  }

  lemma NextIsPermutation(U: set<Node>)
    requires WellLinked(U)
    ensures Injective(Next(U)) && Next(U).Keys == U
    ensures forall x {:trigger Next(U)[x]} {:trigger x.next} :: x in U ==> x in Next(U) && Next(U)[x] == x.next
  {
  }

  lemma PrevInverts(U: set<Node>, x: Node)
    requires WellLinked(U) && x in U
    ensures x.prev in U && x.prev in Next(U) && Next(U)[x.prev] == x
  {
  }

  // ---------------------------------------------------------------------------
  // The operations on permutations
  // ---------------------------------------------------------------------------

  /** `e` is taken off its ring and left alone. */
  ghost function Unlinked(n: Links, e: Node): (r: Links)
    requires e in n
  {
    map x | x in n :: if x == e then e else if n[x] == e then n[e] else n[x]
  }

  /** `e` becomes the successor of `location`. */
  ghost function LinkedAfter(n: Links, e: Node, location: Node): (r: Links)
    requires location in n
  {
    map x | x in n :: if x == location then e else if x == e then n[location] else n[x]
  }

  /** `e` becomes the predecessor of `location`. */
  ghost function LinkedBefore(n: Links, e: Node, location: Node): (r: Links) {
    map x | x in n :: if x == e then location else if n[x] == location then e else n[x]
  }

  /** The transposition of `a` and `b`. */
  ghost function Tau(a: Node, b: Node, x: Node): (y: Node) {
    if x == a then b else if x == b then a else x
  }

  /** `a` and `b` exchange their places, whichever rings they are on. */
  ghost function Exchanged(n: Links, a: Node, b: Node): (r: Links)
    requires a in n && b in n
  {
    map x | x in n :: Tau(a, b, n[Tau(a, b, x)])
  }

  /** The entries of `secondary` follow those of `main`; `secondary` is left alone. */
  ghost function Appended(n: Links, main: Node, secondary: Node): (r: Links)
    requires secondary in n
  {
    map x | x in n ::
      if x == secondary then secondary
      else if n[x] == secondary then main
      else if n[x] == main then n[secondary]
      else n[x]
  }

  ghost function Prev(U: set<Node>): (p: Links)
    reads U
  {
    map x | x in U :: x.prev
  }

  ghost predicate Inverse(n: Links, p: Links) {
    && n.Keys == p.Keys
    && (forall x {:trigger n[x]} :: x in n ==> n[x] in p && p[n[x]] == x)
    && (forall x {:trigger p[x]} :: x in p ==> p[x] in n && n[p[x]] == x)
  }

  // ---------------------------------------------------------------------------
  // The operations on nodes
  // ---------------------------------------------------------------------------

  method Init(head: Node)
    modifies head
    ensures head.next == head && head.prev == head
  {
    head.prev := head;
    head.next := head;
  }

  /** The entry must be unlinked or new: the links are right again if and only if it is. */
  method InsertAfter(newEntry: Node, location: Node, ghost U: set<Node>)
    requires newEntry in U && location in U
    requires WellLinked(U) || (WellLinked(U - {newEntry}) && (location == newEntry ==> newEntry.next == newEntry))
    modifies U
    ensures WellLinked(U) <==> old(WellLinked(U - {newEntry}))
    ensures WellLinked(U) ==> Next(U) == LinkedAfter(old(Next(U)), newEntry, location)
  {
    ghost var p := newEntry.prev;
    StillLinked(newEntry, U);
    var oldNext := location.next;
    location.next := newEntry;
    newEntry.prev := location;
    newEntry.next := oldNext;
    oldNext.prev := newEntry;
    assert old(!WellLinked(U - {newEntry})) ==> p.next == newEntry && newEntry.prev != p;
  }

  method InsertBefore(newEntry: Node, location: Node, ghost U: set<Node>)
    requires newEntry in U && location in U
    requires WellLinked(U) || (WellLinked(U - {newEntry}) && location != newEntry)
    modifies U
    ensures WellLinked(U) <==> old(WellLinked(U - {newEntry}))
    ensures WellLinked(U) ==> Next(U) == LinkedBefore(old(Next(U)), newEntry, location)
  {
    ghost var n := newEntry.next;
    StillLinked(newEntry, U);
    var oldPrev := location.prev;
    oldPrev.next := newEntry;
    newEntry.prev := oldPrev;
    newEntry.next := location;
    location.prev := newEntry;
    assert old(!WellLinked(U - {newEntry})) ==>
        (n.prev == newEntry && newEntry.next != n) || (newEntry.prev == newEntry && newEntry.next != newEntry);
  }

  /** Taking a node out of a well-linked set leaves a well-linked one only if it was alone. */
  lemma StillLinked(x: Node, U: set<Node>)
    requires x in U
    ensures WellLinked(U) ==> (WellLinked(U - {x}) <==> x.next == x)
    ensures WellLinked(U) ==> x.prev in U && x.next in U && (x.next == x <==> x.prev == x)
  {
    if WellLinked(U) && x.next != x {
      assert x.prev.next == x;
    }
  }

  method Remove(entry: Node, ghost U: set<Node>)
    requires WellLinked(U) && entry in U
    modifies U
    ensures WellLinked(U)
    ensures Next(U) == Unlinked(old(Next(U)), entry)
  {
    if entry.next != entry {
      entry.prev.next := entry.next;
      entry.next.prev := entry.prev;
      Init(entry);
    }
  }

  method Pop(head: Node, ghost U: set<Node>) returns (value: Node?)
    requires WellLinked(U) && head in U
    modifies U
    ensures WellLinked(U)
    ensures old(head.next) == head ==> value == null && Next(U) == old(Next(U))
    ensures old(head.next) != head ==> value == old(head.next) && Next(U) == Unlinked(old(Next(U)), value)
  {
    if head.next != head {
      value := head.next;
      Remove(head.next, U);
    } else {
      value := null;
    }
  }

  /**
   Nothing happens unless both lists have entries: in particular an empty `main` does not receive
   the entries of `secondary`. The links are right again unless a list with entries is appended to
   itself.
   */
  method Append(main: Node, secondary: Node, ghost U: set<Node>)
    requires WellLinked(U) && main in U && secondary in U
    modifies U
    ensures WellLinked(U) <==> main != secondary || old(main.next) == main
    ensures WellLinked(U) ==>
              Next(U) ==
              if old(main.next) != main && old(secondary.next) != secondary
              then Appended(old(Next(U)), main, secondary)
              else old(Next(U))
  {
    if main.next != main && secondary.next != secondary {
      ghost var n, p := Next(U), Prev(U);
      LinkedIff(U);
      SplicedLinks(n, p, main, secondary);
      Splice(main, secondary, U);
      LinkedIff(U);
    }
  }

  method SetNext(x: Node, y: Node, ghost U: set<Node>)
    requires x in U
    modifies x
    ensures Next(U) == old(Next(U))[x := y] && Prev(U) == old(Prev(U)) && x.next == y && x.prev == old(x.prev)
  {
    x.next := y;
  }

  method SetPrev(x: Node, y: Node, ghost U: set<Node>)
    requires x in U
    modifies x
    ensures Prev(U) == old(Prev(U))[x := y] && Next(U) == old(Next(U)) && x.prev == y && x.next == old(x.next)
  {
    x.prev := y;
  }

  /** The assignments of list_head_append, as changes of the links in both directions. */
  method Splice(main: Node, secondary: Node, ghost U: set<Node>)
    requires main in U && secondary in U && main.prev in U && secondary.prev in U && secondary.next in U
    requires main.next != main && secondary.next != secondary && main.prev.next == main &&
             secondary.prev.next == secondary
    requires secondary.next.prev == secondary
    modifies U
    ensures Next(U) == SplicedNext(old(Next(U)), old(Prev(U)), main, secondary)
    ensures Prev(U) == SplicedPrev(old(Next(U)), old(Prev(U)), main, secondary)
  {
    SetNext(main.prev, secondary.next, U);
    SetPrev(secondary.next, main.prev, U);
    SetNext(secondary.prev, main, U);
    SetPrev(main, secondary.prev, U);
    SetNext(secondary, secondary, U);
    SetPrev(secondary, secondary, U);
  }

  ghost function SplicedNext(n: Links, p: Links, main: Node, secondary: Node): (r: Links)
    requires main in p && secondary in p && secondary in n
  {
    n[p[main] := n[secondary]][p[secondary] := main][secondary := secondary]
  }

  ghost function SplicedPrev(n: Links, p: Links, main: Node, secondary: Node): (r: Links)
    requires main in p && secondary in p && secondary in n
  {
    p[n[secondary] := p[main]][main := p[secondary]][secondary := secondary]
  }

  lemma LinkedIff(U: set<Node>)
    ensures WellLinked(U) <==> Inverse(Next(U), Prev(U))
  {
    if WellLinked(U) {
      assert forall x {:trigger x.next} :: x in U ==> x.next in U && x.next.prev == x;
      assert forall x {:trigger x.prev} :: x in U ==> x.prev in U && x.prev.next == x;
    }
    if Inverse(Next(U), Prev(U)) {
      var n, p := Next(U), Prev(U);
      forall x | x in U
        ensures x.next in U && x.next.prev == x && x.prev in U && x.prev.next == x
      {
        assert n[x] == x.next && p[x] == x.prev;
      }
    }
  }

  lemma SplicedLinks(n: Links, p: Links, main: Node, secondary: Node)
    requires Inverse(n, p) && main in n && secondary in n && n[main] != main && n[secondary] != secondary
    ensures var n', p' := SplicedNext(n, p, main, secondary), SplicedPrev(n, p, main, secondary);
            && (Inverse(n', p') <==> main != secondary)
            && (main != secondary ==> n' == Appended(n, main, secondary))
  {
    hide Inverse, SplicedNext, SplicedPrev;
    if main == secondary {
      SplicedItself(n, p, main);
    } else {
      SplicedInverse(n, p, main, secondary);
      SplicedAppends(n, p, main, secondary);
    }
  }

  lemma SplicedItself(n: Links, p: Links, main: Node)
    requires Inverse(n, p) && main in n && n[main] != main
    ensures !Inverse(SplicedNext(n, p, main, main), SplicedPrev(n, p, main, main))
  {
    var n', p' := SplicedNext(n, p, main, main), SplicedPrev(n, p, main, main);
    assert n[p[main]] == main && p[n[main]] == main;
    assert n'[p[main]] == main && p'[main] == main;
  }

  lemma SplicedAppends(n: Links, p: Links, main: Node, secondary: Node)
    requires Inverse(n, p) && main in n && secondary in n && main != secondary && n[secondary] != secondary
    ensures SplicedNext(n, p, main, secondary) == Appended(n, main, secondary)
  {
  }

  lemma SplicedInverse(n: Links, p: Links, main: Node, secondary: Node)
    requires Inverse(n, p) && main in n && secondary in n && main != secondary && n[main] != main &&
             n[secondary] != secondary
    ensures Inverse(SplicedNext(n, p, main, secondary), SplicedPrev(n, p, main, secondary))
  {
    hide Inverse;
    InverseAt(n, p, main);
    InverseAt(n, p, secondary);
    var n', p' := SplicedNext(n, p, main, secondary), SplicedPrev(n, p, main, secondary);
    forall x | x in n' || x in p'
      ensures x in n' && x in p' && n'[x] in p' && p'[n'[x]] == x && p'[x] in n' && n'[p'[x]] == x
    {
      InverseAt(n, p, x);
      InverseAt(n, p, n[x]);
      InverseAt(n, p, p[x]);
      InverseAt(n, p, n[secondary]);
      InverseAt(n, p, p[secondary]);
      InverseAt(n, p, p[main]);
    }
    IsInverse(n', p');
  }

  lemma InverseAt(n: Links, p: Links, x: Node)
    requires Inverse(n, p)
    ensures x in n <==> x in p
    ensures x in n ==> n[x] in n && p[x] in p && n[x] in p && p[x] in n && p[n[x]] == x && n[p[x]] == x
  {
  }

  lemma IsInverse(n: Links, p: Links)
    requires forall x :: x in n || x in p ==>
               x in n && x in p && n[x] in p && p[n[x]] == x && p[x] in n && n[p[x]] == x
    ensures Inverse(n, p)
  {
  }

  method Replace(entry1: Node, entry2: Node, ghost U: set<Node>)
    requires WellLinked(U) && entry1 in U && entry2 in U
    modifies U
    ensures WellLinked(U)
    ensures Next(U) == Exchanged(Unlinked(old(Next(U)), entry2), entry1, entry2)
  {
    Remove(entry2, U);
    assert Next(U)[entry2] == entry2;
    TakePlace(entry1, entry2, U);
  }

  /** The second half of Replace, where `entry2` is already unlinked. */
  method TakePlace(entry1: Node, entry2: Node, ghost U: set<Node>)
    requires WellLinked(U) && entry1 in U && entry2 in U && entry2.next == entry2
    modifies U
    ensures WellLinked(U)
    ensures Next(U) == Exchanged(old(Next(U)), entry1, entry2)
  {
    entry2.next := entry1.next;
    entry2.next.prev := entry2;
    entry2.prev := entry1.prev;
    entry2.prev.next := entry2;
    Init(entry1);
  }

  /**
   Exchanges two nodes wherever they are: in both adjacent orders, next to the head, on two rings,
   and a node with itself. The one exception is an unlinked `entry2`: it takes the place of `entry1`
   and `entry1` is then linked right behind it.
   */
  method Swap(entry1: Node, entry2: Node, ghost U: set<Node>)
    requires WellLinked(U) && entry1 in U && entry2 in U
    modifies U
    ensures WellLinked(U)
    ensures Next(U) == Exchanged(old(Next(U)), entry1, entry2) <==> entry1 == entry2 || old(entry2.next) != entry2
    ensures entry1 != entry2 && old(entry2.next) == entry2 ==>
              Next(U) == LinkedAfter(Exchanged(old(Next(U)), entry1, entry2), entry1, entry2)
  {
    hide *;
    var pos := entry2.prev;
    NextIsPermutation(U);
    PrevInverts(U, entry2);
    SwapFactors(Next(U), entry1, entry2, pos);
    Replace(entry1, entry2, U);
    LoneNode(entry1, U);
    if pos == entry1 {
      pos := entry2;
    }
    InsertAfter(entry1, pos, U);
  }

  lemma LoneNode(x: Node, U: set<Node>)
    requires WellLinked(U) && x in U && Next(U)[x] == x
    ensures WellLinked(U - {x}) && x.next == x
  {
  }

  /** Linking `a` back behind the predecessor of `b` completes the exchange, unless `b` was alone. */
  lemma SwapFactors(n: Links, a: Node, b: Node, before: Node)
    requires a in n && b in n && before in n && n[before] == b
    requires Injective(n)
    ensures before == b <==> n[b] == b
    ensures b in Unlinked(n, b) && a in Unlinked(n, b)
    ensures a in Exchanged(Unlinked(n, b), a, b) && Exchanged(Unlinked(n, b), a, b)[a] == a
    ensures (if before == a then b else before) in Exchanged(Unlinked(n, b), a, b)
    ensures var r := LinkedAfter(Exchanged(Unlinked(n, b), a, b), a, if before == a then b else before);
            && (r == Exchanged(n, a, b) <==> a == b || n[b] != b)
            && (a != b && n[b] == b ==> r == LinkedAfter(Exchanged(n, a, b), a, b))
  {
    var e := Exchanged(n, a, b);
    var r := LinkedAfter(Exchanged(Unlinked(n, b), a, b), a, if before == a then b else before);
    if n[b] != b {
      assert r == e;
    } else {
      assert Unlinked(n, b) == n;
      if a == b {
        assert r == e;
      } else {
        assert e[a] == a && r[a] == e[b] && r[b] == a;
      }
    }
  }
}
