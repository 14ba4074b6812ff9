/**
 The in-place sort of an intrusive list. The inner loop keeps scanning from the place the cursor was
 swapped to, and after a scan that swapped anything the outer loop starts again at the head.
 */
module ListSort {
  import opened ListHead
  import opened Rings

  /** What the sort needs of `compare(x, y)`, read "x is after y": a strict partial order. */
  ghost predicate StrictOrder(compare: (Node, Node) -> bool, S: set<Node>) {
    && (forall x :: x in S ==> !compare(x, x))
    && (forall x, y, z :: x in S && y in S && z in S && compare(x, y) && compare(y, z) ==> compare(x, z))
  }

  // ---------------------------------------------------------------------------
  // The measure: early nodes count more, and a swap brings a node of lower rank forward
  // ---------------------------------------------------------------------------

  ghost function Below(compare: (Node, Node) -> bool, S: set<Node>, x: Node): (b: set<Node>) {
    set z | z in S && compare(x, z)
  }

  ghost function Rank(compare: (Node, Node) -> bool, S: set<Node>, x: Node): (r: nat) {
    |Below(compare, S, x)|
  }

  lemma RankDrops(compare: (Node, Node) -> bool, S: set<Node>, x: Node, y: Node)
    requires StrictOrder(compare, S) && x in S && y in S && compare(x, y)
    ensures Rank(compare, S, y) < Rank(compare, S, x)
  {
    assert y in Below(compare, S, x) - Below(compare, S, y);
    ProperSubset(Below(compare, S, y), Below(compare, S, x));
  }

  lemma ProperSubset<T>(a: set<T>, b: set<T>)
    requires a < b
    ensures |a| < |b|
  {
    var d := b - a;
    assert b == a + d && d != {};
  }

  ghost function Ranks(compare: (Node, Node) -> bool, S: set<Node>, c: seq<Node>): (w: seq<nat>) {
    seq(|c|, p requires 0 <= p < |c| => Rank(compare, S, c[p]))
  }

  ghost function Weight(w: seq<nat>): (r: nat) {
    if w == [] then 0 else w[0] * |w| + Weight(w[1..])
  }

  lemma {:induction false} WeightUpdate(w: seq<nat>, i: nat, v: nat)
    requires i < |w|
    ensures Weight(w[i := v]) == Weight(w) + (v - w[i]) * (|w| - i)
  {
    if i == 0 {
      assert w[0 := v][1..] == w[1..];
      assert v * |w| == w[0] * |w| + (v - w[0]) * |w|;
    } else {
      WeightUpdate(w[1..], i - 1, v);
      assert w[i := v][1..] == w[1..][i - 1 := v];
      assert |w[1..]| - (i - 1) == |w| - i;
    }
  }

  lemma SwapLowersWeight(w: seq<nat>, i: nat, j: nat)
    requires i < j < |w| && w[j] < w[i]
    ensures Weight(w[i := w[j]][j := w[i]]) < Weight(w)
  {
    WeightUpdate(w, i, w[j]);
    WeightUpdate(w[i := w[j]], j, w[i]);
    GainOutweighsLoss(w[i] - w[j], |w| - i, |w| - j);
  }

  lemma GainOutweighsLoss(d: int, early: int, late: int)
    requires d > 0 && late < early
    ensures (-d) * early + d * late < 0
  {
  }

  ghost function Disorder(compare: (Node, Node) -> bool, S: set<Node>, s: seq<Node>): (r: nat) {
    Weight(Ranks(compare, S, s))
  }

  // ---------------------------------------------------------------------------
  // One swap
  // ---------------------------------------------------------------------------

  /** `a` and `b` of one ring exchange their positions and nothing else changes on the ring. */
  lemma SwapOnRing(n: Links, s: seq<Node>, i: nat, j: nat)
    requires Ring(n, s) && i < |s| && j < |s|
    ensures Ring(Exchanged(n, s[j], s[i]), s[i := s[j]][j := s[i]])
    ensures multiset(s[i := s[j]][j := s[i]]) == multiset(s)
  {
    RingExchanged(n, s, s[j], s[i]);
    assert Renamed(s, s[j], s[i]) == s[i := s[j]][j := s[i]];
  }

  lemma SwapLowersDisorder(compare: (Node, Node) -> bool, S: set<Node>, s: seq<Node>, i: nat, j: nat)
    requires StrictOrder(compare, S) && i < j < |s| && s[i] in S && s[j] in S && compare(s[i], s[j])
    ensures Disorder(compare, S, s[i := s[j]][j := s[i]]) < Disorder(compare, S, s)
  {
    RankDrops(compare, S, s[i], s[j]);
    var w := Ranks(compare, S, s);
    SwapLowersWeight(w, i, j);
    assert Ranks(compare, S, s[i := s[j]][j := s[i]]) == w[i := w[j]][j := w[i]];
  }

  // ---------------------------------------------------------------------------
  // The swaps of a run
  // ---------------------------------------------------------------------------

  datatype Exchange = Exchange(c: nat, j: nat)

  /** The only swap the sort makes: an entry with the first later one that it is after. */
  ghost predicate FirstInversion(compare: (Node, Node) -> bool, s: seq<Node>, e: Exchange) {
    && 1 <= e.c < e.j < |s| && compare(s[e.c], s[e.j])
    && forall q :: e.c < q < e.j ==> !compare(s[e.c], s[q])
  }

  ghost function Swapped(s: seq<Node>, e: Exchange): (r: seq<Node>)
    ensures |r| == |s|
  {
    if e.c < |s| && e.j < |s| then s[e.c := s[e.j]][e.j := s[e.c]] else s
  }

  ghost predicate Reached(compare: (Node, Node) -> bool, before: seq<Node>, steps: seq<Exchange>, s: seq<Node>) {
    s == Replay(before, steps) && Legal(compare, before, steps)
  }

  ghost function Replay(before: seq<Node>, steps: seq<Exchange>): (s: seq<Node>)
    ensures |s| == |before|
  {
    if steps == [] then before else Swapped(Replay(before, steps[..|steps| - 1]), steps[|steps| - 1])
  }

  ghost predicate Legal(compare: (Node, Node) -> bool, before: seq<Node>, steps: seq<Exchange>) {
    steps != [] ==>
      && Legal(compare, before, steps[..|steps| - 1])
      && FirstInversion(compare, Replay(before, steps[..|steps| - 1]), steps[|steps| - 1])
  }

  lemma NoSteps(compare: (Node, Node) -> bool, before: seq<Node>)
    ensures Reached(compare, before, [], before)
  {
  }

  lemma NextStep(compare: (Node, Node) -> bool, before: seq<Node>, steps: seq<Exchange>, s: seq<Node>, c: nat, j: nat)
    requires Reached(compare, before, steps, s) && 1 <= c < j < |s| && compare(s[c], s[j])
    requires forall q :: c < q < j ==> !compare(s[c], s[q])
    ensures Reached(compare, before, steps + [Exchange(c, j)], s[c := s[j]][j := s[c]])
  {
    assert (steps + [Exchange(c, j)])[..|steps|] == steps;
  }

  /** A list without an entry that is after a later one is left as it is. */
  lemma {:induction false} SortedStays(compare: (Node, Node) -> bool, before: seq<Node>, steps: seq<Exchange>,
                                       s: seq<Node>)
    requires Reached(compare, before, steps, s)
    requires forall p, q :: 1 <= p < q < |before| ==> !compare(before[p], before[q])
    ensures s == before
  {
    if steps != [] {
      SortedStays(compare, before, steps[..|steps| - 1], Replay(before, steps[..|steps| - 1]));
    }
  }

  // ---------------------------------------------------------------------------
  // The sort
  // ---------------------------------------------------------------------------

  /** list_head_swap on two nodes of one ring, with its effect on the ring and on the measure. */
  method SwapEntries(index: Node, current: Node, compare: (Node, Node) -> bool,
                     ghost U: set<Node>, ghost S: set<Node>, ghost s: seq<Node>, ghost c: nat, ghost j: nat)
    returns (ghost r: seq<Node>)
    requires WellLinked(U) && Ring(Next(U), s)
    requires c < j < |s| && s[c] == current && s[j] == index
    requires StrictOrder(compare, S) && index in S && current in S && compare(current, index)
    modifies U
    ensures WellLinked(U) && Ring(Next(U), r)
    ensures r == s[c := index][j := current] && multiset(r) == multiset(s)
    ensures Disorder(compare, S, r) < Disorder(compare, S, s)
    ensures forall x {:trigger x.next} :: x in U && x !in s ==> x.next == old(x.next)
  {
    hide *;
    r := s[c := index][j := current];
    ghost var n := Next(U);
    RingStep(U, s, c);
    RingStep(U, s, j);
    SwapOnRing(n, s, c, j);
    SwapLowersDisorder(compare, S, s, c, j);
    NextIsPermutation(U);
    ExchangeOffRing(n, s, index, current);
    Swap(index, current, U);
    assert Next(U) == Exchanged(n, index, current);
    NextIsPermutation(U);
  }

  lemma RingStep(U: set<Node>, s: seq<Node>, k: nat)
    requires WellLinked(U) && Ring(Next(U), s) && k < |s|
    ensures s[k] in U && s[k].next == if k + 1 < |s| then s[k + 1] else s[0]
    ensures k + 1 < |s| ==> s[k + 1] != s[0] && s[k].next != s[k]
    ensures k > 0 ==> s[k] != s[0]
  {
  }

  lemma Irreflexive(compare: (Node, Node) -> bool, S: set<Node>, x: Node)
    requires StrictOrder(compare, S) && x in S
    ensures !compare(x, x)
  {
  }

  lemma ExchangeOffRing(n: Links, s: seq<Node>, a: Node, b: Node)
    requires Injective(n) && Ring(n, s) && a in s && b in s
    ensures a in n && b in n
    ensures forall x :: x in n && x !in s ==> x in Exchanged(n, a, b) && Exchanged(n, a, b)[x] == n[x]
  {
    forall x | x in n && x !in s
      ensures n[x] !in s
    {
      forall k | 0 <= k < |s|
        ensures s[k] != n[x]
      {
        assert n[s[if k > 0 then k - 1 else |s| - 1]] == s[k];
      }
    }
  }

  /**
   The inner loop: compare `current` with the nodes behind it, swapping on the way. After a swap the
   scan goes on from the node behind the old place of `current`; it meets only nodes that `current`
   is not after until it has passed `current` again.
   */
  method Scan(list: Node, current: Node, compare: (Node, Node) -> bool,
              ghost U: set<Node>, ghost S: set<Node>, ghost start: seq<Node>, ghost i: nat,
              ghost before: seq<Node>, ghost made: seq<Exchange>)
    returns (restart: bool, ghost s: seq<Node>, ghost steps: seq<Exchange>)
    requires WellLinked(U) && Ring(Next(U), start)
    requires 1 <= i < |start| && start[0] == list && start[i] == current
    requires StrictOrder(compare, S) && forall k :: 1 <= k < |start| ==> start[k] in S
    requires Reached(compare, before, made, start)
    modifies U
    ensures WellLinked(U) && Ring(Next(U), s)
    ensures |s| == |start| && s[0] == list && multiset(s) == multiset(start)
    ensures forall k :: 1 <= k < |s| ==> s[k] in S
    ensures Reached(compare, before, steps, s)
    ensures restart ==> Disorder(compare, S, s) < Disorder(compare, S, start)
    ensures !restart ==> s == start && forall q :: i < q < |s| ==> !compare(current, s[q])
    ensures forall x {:trigger x.next} :: x in U && x !in S && x != list ==> x.next == old(x.next)
  {
    hide *;
    s, steps := start, made;
    restart := false;
    RingStep(U, s, i);
    var index := current.next;
    ghost var c, j := i, i + 1;
    while index != list
      invariant WellLinked(U) && Ring(Next(U), s)
      invariant |s| == |start| && s[0] == list && multiset(s) == multiset(start)
      invariant forall k :: 1 <= k < |s| ==> s[k] in S
      invariant Reached(compare, before, steps, s)
      invariant 1 <= c < |s| && s[c] == current
      invariant 1 < j <= |s| && index == if j < |s| then s[j] else list
      invariant forall q :: j <= q < c || c < q < j ==> !compare(current, s[q])
      invariant if restart then Disorder(compare, S, s) < Disorder(compare, S, start) else s == start && c == i < j
      invariant forall x {:trigger x.next} :: x in U && x !in S && x != list ==> x.next == old(x.next)
      decreases Disorder(compare, S, s), |s| - j
    {
      if compare(current, index) {
        Irreflexive(compare, S, current);
        NextStep(compare, before, steps, s, c, j);
        steps := steps + [Exchange(c, j)];
        s := SwapEntries(index, current, compare, U, S, s, c, j);
        restart := true;
        c, j := j, c;
      }
      RingStep(U, s, j);
      index := index.next;
      j := j + 1;
    }
    if j < |s| {
      RingStep(U, s, j);
    }
  }

  /**
   Terminates for every strict partial order and leaves a ring with the same head and nodes on which
   no entry is after a later one. The links of all other nodes are as before. The head is never
   compared. The list is reached by swaps of an entry with the first later one that it is after.
   */
  method Sort(list: Node, compare: (Node, Node) -> bool, ghost U: set<Node>, ghost before: seq<Node>)
    returns (ghost s: seq<Node>, ghost steps: seq<Exchange>)
    requires WellLinked(U) && Ring(Next(U), before) && |before| > 0 && before[0] == list
    requires StrictOrder(compare, set x | x in before[1..])
    modifies U
    ensures WellLinked(U) && Ring(Next(U), s)
    ensures |s| == |before| && s[0] == list && multiset(s) == multiset(before)
    ensures Reached(compare, before, steps, s)
    ensures forall p, q :: 1 <= p < q < |s| ==> !compare(s[p], s[q])
    ensures forall x {:trigger x.next} :: x in U && x !in before ==> x.next == old(x.next)
  {
    hide *;
    s, steps := before, [];
    NoSteps(compare, before);
    RingStep(U, s, 0);
    if list.next != list {
      ghost var S := set x | x in before[1..];
      var current := list.next;
      ghost var i := 1;
      while current.next != list
        invariant WellLinked(U) && Ring(Next(U), s)
        invariant |s| == |before| && s[0] == list && multiset(s) == multiset(before)
        invariant forall k :: 1 <= k < |s| ==> s[k] in S
        invariant Reached(compare, before, steps, s)
        invariant 1 <= i < |s| && s[i] == current
        invariant forall p, q :: 1 <= p < i && p < q < |s| ==> !compare(s[p], s[q])
        invariant forall x {:trigger x.next} :: x in U && x !in S && x != list ==> x.next == old(x.next)
        decreases Disorder(compare, S, s), |s| - i
      {
        RingStep(U, s, i);
        var next := current.next;
        var restart;
        restart, s, steps := Scan(list, current, compare, U, S, s, i, before, steps);
        if restart {
          RingStep(U, s, 0);
          current := list.next;
          i := 1;
        } else {
          current := next;
          i := i + 1;
        }
      }
      RingStep(U, s, i);
    }
  }
}
