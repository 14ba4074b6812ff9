/**
 The one comparison the kernel sorts with: virtual memory areas on the memory map list of a process,
 where free space is looked for between neighbours. A list to which areas are added is sorted each
 time; that of a forked process is a copy in the opposite order, which is not sorted.
 */
module VmAreas {
  import opened ListHead
  import opened Machine
  import opened Rings
  import opened ListSort

  /** `[vmStart, vmEnd)`. */
  datatype Area = Area(vmStart: nat, vmEnd: nat)

  predicate After(a: Area, b: Area) {
    a.vmStart > b.vmEnd
  }

  function Compare(area: Node -> Area): (c: (Node, Node) -> bool) {
    (x: Node, y: Node) => After(area(x), area(y))
  }

  predicate Apart(a: Area, b: Area) {
    a.vmEnd <= b.vmStart || b.vmEnd <= a.vmStart
  }

  ghost predicate NonEmptyAndApart(area: Node -> Area, s: seq<Node>) {
    && (forall p :: 1 <= p < |s| ==> area(s[p]).vmStart < area(s[p]).vmEnd < UINT32)
    && (forall p, q :: 1 <= p < q < |s| ==> Apart(area(s[p]), area(s[q])))
  }

  ghost predicate NoneBackwards(area: Node -> Area, s: seq<Node>) {
    forall p :: 1 <= p < |s| ==> area(s[p]).vmStart <= area(s[p]).vmEnd
  }

  ghost predicate Ascending(area: Node -> Area, s: seq<Node>) {
    forall p, q :: 1 <= p < q < |s| ==> area(s[p]).vmEnd <= area(s[q]).vmStart
  }

  /** The comparison is a strict partial order on exactly the sets of areas that do not run backwards. */
  lemma CompareIsStrictOrder(area: Node -> Area, S: set<Node>)
    ensures StrictOrder(Compare(area), S) <==> forall x :: x in S ==> area(x).vmStart <= area(x).vmEnd
  {
  }

  // ---------------------------------------------------------------------------
  // Sorting areas
  // ---------------------------------------------------------------------------

  ghost predicate NoInversion(area: Node -> Area, s: seq<Node>) {
    forall p, q :: 1 <= p < q < |s| ==> !Compare(area)(s[p], s[q])
  }

  ghost predicate Touching(area: Node -> Area, s: seq<Node>, p: nat, q: nat) {
    1 <= p < |s| && 1 <= q < |s| && area(s[p]).vmEnd == area(s[q]).vmStart
  }

  ghost predicate NoneTouch(area: Node -> Area, s: seq<Node>) {
    forall p: nat, q: nat :: !Touching(area, s, p, q)
  }

  ghost predicate SameEntries(s: seq<Node>, t: seq<Node>) {
    |s| == |t| && |s| > 0 && s[0] == t[0] && multiset(s) == multiset(t)
  }

  ghost predicate Occurs(s: seq<Node>, x: Node) {
    exists j :: 1 <= j < |s| && s[j] == x
  }

  /** What Sort does to a list: `s` is where it ends when it starts from `before`. */
  ghost predicate SortsTo(area: Node -> Area, before: seq<Node>, steps: seq<Exchange>, s: seq<Node>) {
    SameEntries(before, s) && Reached(Compare(area), before, steps, s) && NoInversion(area, s)
  }

  method SortAreas(list: Node, area: Node -> Area, ghost U: set<Node>, ghost before: seq<Node>)
    returns (ghost s: seq<Node>, ghost steps: seq<Exchange>)
    requires WellLinked(U) && Ring(Next(U), before) && |before| > 0 && before[0] == list
    requires NoneBackwards(area, before)
    modifies U
    ensures WellLinked(U) && Ring(Next(U), s) && SortsTo(area, before, steps, s)
    ensures forall x {:trigger x.next} :: x in U && x !in before ==> x.next == old(x.next)
  {
    hide WellLinked, Ring, Reached;
    CompareIsStrictOrder(area, set x | x in before[1..]);
    s, steps := Sort(list, Compare(area), U, before);
  }

  /** The order of a list plays no part in what is required of its areas. */
  lemma AnyOrder(area: Node -> Area, s: seq<Node>, t: seq<Node>)
    requires SameEntries(s, t) && Distinct(s)
    ensures NonEmptyAndApart(area, s) ==> NonEmptyAndApart(area, t)
    ensures NoneTouch(area, s) ==> NoneTouch(area, t)
  {
    hide SameEntries, Apart;
    DistinctEntries(s, t);
    if NonEmptyAndApart(area, s) {
      forall p, q | 1 <= p < q < |t|
        ensures Apart(area(t[p]), area(t[q]))
      {
        assert Occurs(s, t[p]) && Occurs(s, t[q]);
        var p' :| 1 <= p' < |s| && s[p'] == t[p];
        var q' :| 1 <= q' < |s| && s[q'] == t[q];
        ApartEitherWay(area(t[p]), area(t[q]));
      }
    }
    if NoneTouch(area, s) {
      forall p: nat, q: nat
        ensures !Touching(area, t, p, q)
      {
        TouchingMoves(area, s, t, p, q);
      }
    }
  }

  lemma TouchingMoves(area: Node -> Area, s: seq<Node>, t: seq<Node>, p: nat, q: nat)
    requires forall i :: 1 <= i < |t| ==> Occurs(s, t[i])
    ensures Touching(area, t, p, q) ==> exists p': nat, q': nat :: Touching(area, s, p', q')
  {
    if Touching(area, t, p, q) {
      var p' :| 1 <= p' < |s| && s[p'] == t[p];
      var q' :| 1 <= q' < |s| && s[q'] == t[q];
      assert Touching(area, s, p', q');
    }
  }

  lemma ApartEitherWay(a: Area, b: Area)
    ensures Apart(a, b) == Apart(b, a)
  {
  }

  lemma DistinctEntries(s: seq<Node>, t: seq<Node>)
    requires SameEntries(s, t) && Distinct(s)
    ensures Distinct(t) && forall p :: 1 <= p < |t| ==> Occurs(s, t[p])
  {
    CountAtMostOne(s);
    forall i, j | 0 <= i < j < |t|
      ensures t[i] != t[j]
    {
      assert t == t[..j] + t[j..];
      assert multiset(t) == multiset(t[..j]) + multiset(t[j..]);
      assert t[..j][i] in multiset(t[..j]) && t[j..][0] in multiset(t[j..]);
      assert multiset(t)[t[i]] <= 1;
    }
    forall p | 1 <= p < |t|
      ensures Occurs(s, t[p])
    {
      assert t[p] in multiset(t);
      assert t[p] in s && t[p] != s[0];
    }
  }

  lemma {:induction false} CountAtMostOne(s: seq<Node>)
    requires Distinct(s)
    ensures forall x :: multiset(s)[x] <= 1
  {
    if s != [] {
      var rest, last := s[..|s| - 1], s[|s| - 1];
      CountAtMostOne(rest);
      assert s == rest + [last];
      assert last !in rest;
    }
  }

  /**
   Sorting puts disjoint areas in address order from every order they may be listed in, if and only
   if no two of them touch: touching areas are not ordered by the comparison and can stay swapped.
   */
  lemma AddressOrder(area: Node -> Area, before: seq<Node>)
    requires NonEmptyAndApart(area, before) && Distinct(before) && |before| > 0
    ensures NoneTouch(area, before) <==>
            forall t, steps, s :: SameEntries(before, t) && SortsTo(area, t, steps, s) ==> Ascending(area, s)
  {
    hide *;
    if NoneTouch(area, before) {
      forall t, steps, s | SameEntries(before, t) && SortsTo(area, t, steps, s)
        ensures Ascending(area, s)
      {
        SortedAscends(area, before, t, steps, s);
      }
    } else {
      var t := SwappedOrder(area, before);
      assert SameEntries(before, t) && SortsTo(area, t, [], t) && !Ascending(area, t);
    }
  }

  lemma SortedAscends(area: Node -> Area, before: seq<Node>, t: seq<Node>, steps: seq<Exchange>, s: seq<Node>)
    requires NonEmptyAndApart(area, before) && Distinct(before) && NoneTouch(area, before)
    requires SameEntries(before, t) && SortsTo(area, t, steps, s)
    ensures Ascending(area, s)
  {
    AnyOrder(area, before, s);
    forall p, q | 1 <= p < q < |s|
      ensures area(s[p]).vmEnd <= area(s[q]).vmStart
    {
      assert !Compare(area)(s[p], s[q]);
      assert !Touching(area, s, q, p);
    }
  }

  /** The areas in address order. */
  ghost function ByStart(area: Node -> Area, a: seq<Node>): (o: seq<Node>) {
    if a == [] then [] else Placed(area, a[0], ByStart(area, a[1..]))
  }

  ghost function Placed(area: Node -> Area, x: Node, o: seq<Node>): (r: seq<Node>) {
    if o == [] || area(x).vmStart <= area(o[0]).vmStart then [x] + o else [o[0]] + Placed(area, x, o[1..])
  }

  ghost predicate Ordered(area: Node -> Area, o: seq<Node>) {
    && (forall i :: 0 <= i < |o| ==> area(o[i]).vmStart < area(o[i]).vmEnd)
    && (forall i, j :: 0 <= i < j < |o| ==> area(o[i]).vmEnd <= area(o[j]).vmStart)
  }

  lemma {:induction false} PlacedInOrder(area: Node -> Area, x: Node, o: seq<Node>)
    requires Ordered(area, o) && area(x).vmStart < area(x).vmEnd
    requires forall i :: 0 <= i < |o| ==> Apart(area(x), area(o[i]))
    ensures Ordered(area, Placed(area, x, o)) && multiset(Placed(area, x, o)) == multiset(o) + multiset{x}
    decreases |o|
  {
    hide Ordered;
    if o == [] || area(x).vmStart <= area(o[0]).vmStart {
      InFront(area, x, o);
    } else {
      var rest := Placed(area, x, o[1..]);
      Behind(area, o);
      PlacedInOrder(area, x, o[1..]);
      assert o == [o[0]] + o[1..];
      forall j | 0 <= j < |rest|
        ensures area(o[0]).vmEnd <= area(rest[j]).vmStart
      {
        assert rest[j] in multiset(rest);
        assert rest[j] == x || rest[j] in o[1..];
      }
      InFront(area, o[0], rest);
    }
  }

  lemma InFront(area: Node -> Area, x: Node, o: seq<Node>)
    requires Ordered(area, o) && area(x).vmStart < area(x).vmEnd
    requires o == [] || area(x).vmEnd <= area(o[0]).vmStart ||
             (area(x).vmStart <= area(o[0]).vmStart && Apart(area(x), area(o[0])))
    ensures Ordered(area, [x] + o)
  {
  }

  lemma Behind(area: Node -> Area, o: seq<Node>)
    requires Ordered(area, o) && o != []
    ensures Ordered(area, o[1..]) && area(o[0]).vmStart < area(o[0]).vmEnd
    ensures forall y :: y in o[1..] ==> area(o[0]).vmEnd <= area(y).vmStart
  {
  }

  lemma {:induction false} ByStartIsOrdered(area: Node -> Area, a: seq<Node>)
    requires forall i :: 0 <= i < |a| ==> area(a[i]).vmStart < area(a[i]).vmEnd
    requires forall i, j :: 0 <= i < j < |a| ==> Apart(area(a[i]), area(a[j]))
    ensures Ordered(area, ByStart(area, a)) && multiset(ByStart(area, a)) == multiset(a)
  {
    if a != [] {
      var rest := ByStart(area, a[1..]);
      ByStartIsOrdered(area, a[1..]);
      assert a == [a[0]] + a[1..];
      forall j | 0 <= j < |rest|
        ensures Apart(area(a[0]), area(rest[j]))
      {
        assert rest[j] in multiset(rest);
        assert rest[j] in a[1..];
      }
      PlacedInOrder(area, a[0], rest);
    }
  }

  /** Address order with two touching areas swapped: the sort leaves it as it is. */
  lemma SwappedOrder(area: Node -> Area, before: seq<Node>) returns (t: seq<Node>)
    requires NonEmptyAndApart(area, before) && |before| > 0 && !NoneTouch(area, before)
    ensures SameEntries(before, t) && SortsTo(area, t, [], t) && !Ascending(area, t)
  {
    hide ByStart, Reached, Ordered, NonEmptyAndApart, NoInversion, Ascending;
    var o := InAddressOrder(area, before);
    var p: nat, q: nat :| Touching(area, before, p, q);
    var i := Position(before[1..], o, p - 1);
    var k := Position(before[1..], o, q - 1);
    TouchingAreNeighbours(area, o, i, k);
    t := [before[0]] + o[i := o[k]][k := o[i]];
    NoSteps(Compare(area), t);
    SwapKeeps(area, before[0], o, i);
    assert before == [before[0]] + before[1..];
  }

  lemma InAddressOrder(area: Node -> Area, before: seq<Node>) returns (o: seq<Node>)
    requires NonEmptyAndApart(area, before) && |before| > 0
    ensures Ordered(area, o) && multiset(o) == multiset(before[1..]) && |o| == |before| - 1
  {
    var a := before[1..];
    assert forall i :: 0 <= i < |a| ==> a[i] == before[i + 1];
    o := ByStart(area, a);
    ByStartIsOrdered(area, a);
    assert |o| == |multiset(o)| && |a| == |multiset(a)|;
  }

  lemma Position(a: seq<Node>, o: seq<Node>, p: nat) returns (i: nat)
    requires multiset(a) == multiset(o) && p < |a|
    ensures i < |o| && o[i] == a[p]
  {
    assert a[p] in multiset(o);
    i :| 0 <= i < |o| && o[i] == a[p];
  }

  lemma TouchingAreNeighbours(area: Node -> Area, o: seq<Node>, i: nat, k: nat)
    requires Ordered(area, o) && i < |o| && k < |o| && area(o[i]).vmEnd == area(o[k]).vmStart
    ensures k == i + 1
  {
    var next := o[if i + 1 < |o| then i + 1 else i];
  }

  lemma SwapKeeps(area: Node -> Area, head: Node, o: seq<Node>, i: nat)
    requires Ordered(area, o) && i + 1 < |o| && area(o[i]).vmEnd == area(o[i + 1]).vmStart
    ensures var t := [head] + o[i := o[i + 1]][i + 1 := o[i]]; NoInversion(area, t) && !Ascending(area, t)
  {
    var u := o[i := o[i + 1]][i + 1 := o[i]];
    var t := [head] + u;
    assert t[i + 1] == o[i + 1] && t[i + 2] == o[i];
    forall p, q | 1 <= p < q < |t|
      ensures !Compare(area)(t[p], t[q])
    {
      assert t[p] == u[p - 1] && t[q] == u[q - 1];
    }
  }

  // ---------------------------------------------------------------------------
  // Adding an area
  // ---------------------------------------------------------------------------

  /** How many areas at the front of the list end before `x` starts. */
  ghost function Lower(area: Node -> Area, a: seq<Node>, x: Node): (k: nat)
    ensures k <= |a| && (k < |a| ==> !Compare(area)(x, a[k]))
    ensures forall j :: 0 <= j < k ==> Compare(area)(x, a[j])
  {
    if a == [] || !Compare(area)(x, a[0]) then 0 else 1 + Lower(area, a[1..], x)
  }

  ghost function With(s: seq<Node>, k: nat, x: Node): (r: seq<Node>)
    requires k < |s|
    ensures |r| == |s| + 1
  {
    s[..k + 1] + [x] + s[k + 1..]
  }

  /** On its way through a list in address order the new area passes one area at a time. */
  lemma {:induction false} PassesOneByOne(area: Node -> Area, s: seq<Node>, x: Node, steps: seq<Exchange>, t: seq<Node>)
    returns (k: nat)
    requires |s| > 0 && Ascending(area, s) && NonEmptyAndApart(area, With(s, 0, x))
    requires Reached(Compare(area), With(s, 0, x), steps, t)
    ensures k <= Lower(area, s[1..], x) && t == With(s, k, x)
  {
    if steps == [] {
      k := 0;
    } else {
      var e, u := steps[|steps| - 1], Replay(With(s, 0, x), steps[..|steps| - 1]);
      k := PassesOneByOne(area, s, x, steps[..|steps| - 1], u);
      OnePass(area, s, x, k, e);
      k := k + 1;
    }
  }

  lemma OnePass(area: Node -> Area, s: seq<Node>, x: Node, k: nat, e: Exchange)
    requires |s| > 0 && Ascending(area, s) && NonEmptyAndApart(area, With(s, 0, x))
    requires k <= Lower(area, s[1..], x) && FirstInversion(Compare(area), With(s, k, x), e)
    ensures k < Lower(area, s[1..], x) && Swapped(With(s, k, x), e) == With(s, k + 1, x)
  {
    hide Ascending, NonEmptyAndApart, Compare, Lower;
    var t := With(s, k, x);
    OnlyTheNew(area, s, x, k, e.c, e.j);
    LowerOnes(area, s, x, k + 1, e.j - 1);
    assert t[k + 2] == s[k + 1] && t[e.j] == s[e.j - 1];
  }

  /** Only the new area can be after a later one. */
  lemma OnlyTheNew(area: Node -> Area, s: seq<Node>, x: Node, k: nat, c: nat, j: nat)
    requires |s| > 0 && Ascending(area, s) && NonEmptyAndApart(area, With(s, 0, x))
    requires k <= Lower(area, s[1..], x) && 1 <= c < j <= |s|
    ensures Compare(area)(With(s, k, x)[c], With(s, k, x)[j]) ==> c == k + 1 && Compare(area)(x, s[j - 1])
  {
    hide Ascending, NonEmptyAndApart;
    Shapes(area, s, x, if c <= k then c else j - 1);
    if j <= k {
      InOrder(area, s, x, c, j);
    } else if k + 1 < c {
      InOrder(area, s, x, c - 1, j - 1);
    } else if c <= k && j > k + 1 {
      InOrder(area, s, x, c, j - 1);
    } else if c <= k {
      assert Compare(area)(x, s[1..][c - 1]);
    }
  }

  lemma Shapes(area: Node -> Area, s: seq<Node>, x: Node, i: nat)
    requires |s| > 0 && NonEmptyAndApart(area, With(s, 0, x)) && 1 <= i < |s|
    ensures area(x).vmStart < area(x).vmEnd && area(s[i]).vmStart < area(s[i]).vmEnd && Apart(area(s[i]), area(x))
  {
    var t := With(s, 0, x);
    assert t[1] == x && t[i + 1] == s[i];
  }

  lemma InOrder(area: Node -> Area, s: seq<Node>, x: Node, i: nat, j: nat)
    requires |s| > 0 && Ascending(area, s) && NonEmptyAndApart(area, With(s, 0, x)) && 1 <= i < j < |s|
    ensures area(s[i]).vmEnd <= area(s[j]).vmStart && !Compare(area)(s[i], s[j])
  {
    hide NonEmptyAndApart;
    Shapes(area, s, x, i);
    Shapes(area, s, x, j);
  }

  /** The areas that end before `x` starts are the first ones. */
  lemma LowerOnes(area: Node -> Area, s: seq<Node>, x: Node, i: nat, j: nat)
    requires |s| > 0 && Ascending(area, s) && NonEmptyAndApart(area, With(s, 0, x)) && 1 <= i <= j < |s|
    ensures Compare(area)(x, s[j]) ==> Compare(area)(x, s[i]) && j <= Lower(area, s[1..], x)
  {
    hide Ascending, NonEmptyAndApart;
    var m := Lower(area, s[1..], x);
    if i < j {
      InOrder(area, s, x, i, j);
      Shapes(area, s, x, j);
    }
    if m + 1 < j {
      InOrder(area, s, x, m + 1, j);
      Shapes(area, s, x, j);
    }
    assert m < |s| - 1 ==> !Compare(area)(x, s[1..][m]);
  }

  lemma EndsAtItsPlace(area: Node -> Area, s: seq<Node>, x: Node, steps: seq<Exchange>, t: seq<Node>)
    requires |s| > 0 && Ascending(area, s) && NonEmptyAndApart(area, With(s, 0, x))
    requires Reached(Compare(area), With(s, 0, x), steps, t) && NoInversion(area, t)
    ensures t == With(s, Lower(area, s[1..], x), x)
  {
    hide Ascending, NonEmptyAndApart, Compare, Reached;
    var m := Lower(area, s[1..], x);
    var k := PassesOneByOne(area, s, x, steps, t);
    if k < m {
      NotYetThere(area, s, x, k);
    }
  }

  lemma NotYetThere(area: Node -> Area, s: seq<Node>, x: Node, k: nat)
    requires |s| > 0 && k < Lower(area, s[1..], x)
    ensures !NoInversion(area, With(s, k, x))
  {
    var t := With(s, k, x);
    assert t[k + 1] == x && t[k + 2] == s[1..][k];
  }

  ghost predicate StartsAtAnEnd(area: Node -> Area, s: seq<Node>, x: Node) {
    exists i :: 1 <= i < |s| && area(s[i]).vmEnd == area(x).vmStart
  }

  lemma WithAscends(area: Node -> Area, s: seq<Node>, x: Node)
    requires |s| > 0 && Ascending(area, s) && NonEmptyAndApart(area, With(s, 0, x))
    ensures Ascending(area, With(s, Lower(area, s[1..], x), x)) <==> !StartsAtAnEnd(area, s, x)
  {
    hide NonEmptyAndApart;
    var m := Lower(area, s[1..], x);
    var t := With(s, m, x);
    if StartsAtAnEnd(area, s, x) {
      var i :| 1 <= i < |s| && area(s[i]).vmEnd == area(x).vmStart;
      Shapes(area, s, x, i);
      LowerMeans(area, s, x, i);
      assert t[m + 1] == x && t[i + 1] == s[i];
    } else {
      forall p, q | 1 <= p < q < |t|
        ensures area(t[p]).vmEnd <= area(t[q]).vmStart
      {
        AroundTheNew(area, s, x, p, q);
      }
    }
  }

  lemma AroundTheNew(area: Node -> Area, s: seq<Node>, x: Node, p: nat, q: nat)
    requires |s| > 0 && Ascending(area, s) && NonEmptyAndApart(area, With(s, 0, x))
    requires !StartsAtAnEnd(area, s, x) && 1 <= p < q <= |s|
    ensures var t := With(s, Lower(area, s[1..], x), x); area(t[p]).vmEnd <= area(t[q]).vmStart
  {
    hide Ascending, NonEmptyAndApart, Lower, StartsAtAnEnd;
    var m := Lower(area, s[1..], x);
    if p == m + 1 {
      HigherOnes(area, s, x, q - 1);
    } else if q == m + 1 {
      LowerMeans(area, s, x, p);
    } else {
      InOrder(area, s, x, if p <= m then p else p - 1, if q <= m then q else q - 1);
    }
  }

  lemma LowerMeans(area: Node -> Area, s: seq<Node>, x: Node, i: nat)
    requires 1 <= i < |s|
    ensures i <= Lower(area, s[1..], x) ==> Compare(area)(x, s[i])
  {
    assert s[1..][i - 1] == s[i];
  }

  lemma HigherOnes(area: Node -> Area, s: seq<Node>, x: Node, i: nat)
    requires |s| > 0 && Ascending(area, s) && NonEmptyAndApart(area, With(s, 0, x))
    requires !StartsAtAnEnd(area, s, x) && Lower(area, s[1..], x) < i < |s|
    ensures area(x).vmEnd <= area(s[i]).vmStart
  {
    hide NonEmptyAndApart;
    var m := Lower(area, s[1..], x);
    assert !Compare(area)(x, s[1..][m]);
    Shapes(area, s, x, m + 1);
    if m + 1 < i {
      InOrder(area, s, x, m + 1, i);
    }
  }

  /**
   How create_vm_area adds an area: first on the list, then sorted in. In a list in address order it
   comes behind the areas that end before it starts, and the list is in address order again if and
   only if no area ends exactly where the new one starts.
   */
  method AddArea(list: Node, x: Node, area: Node -> Area, ghost U: set<Node>, ghost before: seq<Node>)
    returns (ghost s: seq<Node>, ghost steps: seq<Exchange>)
    requires x in U && WellLinked(U - {x}) && Ring(Next(U), before) && before[0] == list && x !in before
    requires NoneBackwards(area, With(before, 0, x))
    modifies U
    ensures WellLinked(U) && Ring(Next(U), s) && SortsTo(area, With(before, 0, x), steps, s)
    ensures NonEmptyAndApart(area, With(before, 0, x)) && Ascending(area, before) ==>
      && s == With(before, Lower(area, before[1..], x), x)
      && (Ascending(area, s) <==> !StartsAtAnEnd(area, before, x))
    ensures forall y {:trigger y.next} :: y in U && y != x && y !in before ==> y.next == old(y.next)
  {
    hide WellLinked, Ring, Reached, NonEmptyAndApart, NoneBackwards, Ascending, Lower, SortsTo;
    InRing(Next(U), before);
    InsertFirst(list, x, U, before);
    s, steps := SortAreas(list, area, U, With(before, 0, x));
    if NonEmptyAndApart(area, With(before, 0, x)) && Ascending(area, before) {
      SortsToMeans(area, With(before, 0, x), steps, s);
      EndsAtItsPlace(area, before, x, steps, s);
      WithAscends(area, before, x);
    }
  }

  method InsertFirst(list: Node, x: Node, ghost U: set<Node>, ghost before: seq<Node>)
    requires x in U && WellLinked(U - {x}) && Ring(Next(U), before) && before[0] == list && x !in before
    modifies U
    ensures WellLinked(U) && Ring(Next(U), With(before, 0, x))
    ensures forall y {:trigger y.next} :: y in U && y != x && y !in before ==> y.next == old(y.next)
  {
    hide WellLinked, Ring;
    ghost var n := Next(U);
    InRing(n, before);
    RingLinkedAfter(n, before, 0, x);
    assert Inserted(before, 1, x) == With(before, 0, x);
    InsertAfter(x, list, U);
    assert forall y {:trigger y.next} :: y in U && y != x && y != list ==> Next(U)[y] == n[y];
  }

  lemma InRing(n: Links, s: seq<Node>)
    requires Ring(n, s)
    ensures |s| > 0 && s[0] in n
  {
  }

  lemma SortsToMeans(area: Node -> Area, before: seq<Node>, steps: seq<Exchange>, s: seq<Node>)
    requires SortsTo(area, before, steps, s)
    ensures Reached(Compare(area), before, steps, s) && NoInversion(area, s)
  {
  }

  // ---------------------------------------------------------------------------
  // The guard
  // ---------------------------------------------------------------------------

  /** One area covers the other and they have an end in common. */
  predicate CoversSharing(a: Area, b: Area) {
    a.vmStart <= b.vmStart && b.vmEnd <= a.vmEnd && (a.vmStart == b.vmStart || a.vmEnd == b.vmEnd)
  }

  /**
   is_valid_vm_area: -1 for an area that is empty or runs backwards, else 1 if and only if it is apart
   from every area of the list or covers it with an end in common; the same area twice is accepted.
   */
  method IsValid(head: Node, area: Node -> Area, candidate: Area, ghost U: set<Node>, ghost s: seq<Node>)
    returns (r: int)
    requires WellLinked(U) && Ring(Next(U), s) && s[0] == head
    requires forall p :: 1 <= p < |s| ==> area(s[p]).vmStart < area(s[p]).vmEnd
    ensures r == if candidate.vmEnd <= candidate.vmStart then -1
                 else if forall p :: 1 <= p < |s| ==>
                                       Apart(candidate, area(s[p])) || CoversSharing(candidate, area(s[p])) then 1
                 else 0
  {
    hide WellLinked, Ring, Next;
    InRing(Next(U), s);
    if candidate.vmEnd <= candidate.vmStart {
      return -1;
    }
    RingBack(U, s, 0);
    var it := head.prev;
    ghost var k := |s| - 1;
    while it != head
      invariant 0 <= k < |s| && it == s[k]
      invariant forall p :: k < p < |s| ==> Apart(candidate, area(s[p])) || CoversSharing(candidate, area(s[p]))
      decreases k
    {
      RingBack(U, s, k);
      var a := area(it);
      if a.vmStart < candidate.vmStart < a.vmEnd {
        return 0;
      }
      if a.vmStart < candidate.vmEnd < a.vmEnd {
        return 0;
      }
      if candidate.vmStart < a.vmStart && candidate.vmEnd > a.vmEnd {
        return 0;
      }
      it := it.prev;
      k := k - 1;
    }
    RingBack(U, s, k);
    return 1;
  }

  /** Available space between neighbours, computed in 32 bits as the source does. */
  function Gap(prev: Area, area: Area): (g: nat) {
    (area.vmStart - prev.vmEnd) % UINT32
  }

  ghost function GapBefore(area: Node -> Area, s: seq<Node>, k: nat): (g: nat)
    requires 2 <= k < |s|
  {
    Gap(area(s[k - 1]), area(s[k]))
  }

  datatype Spot = NoSpot | Spot(vmStart: nat)

  /** The pair of neighbours that the search chooses: the last one far enough apart. */
  ghost predicate Chosen(area: Node -> Area, s: seq<Node>, length: nat, k: nat) {
    2 <= k < |s| && length <= GapBefore(area, s, k) && forall j :: k < j < |s| ==> GapBefore(area, s, j) < length
  }

  function SpotAt(area: Node -> Area, x: Node, length: nat): (vmStart: nat) {
    (area(x).vmStart - length) % UINT32
  }

  /** The spot lies within 32 bits and overlaps no area. */
  ghost predicate Free(area: Node -> Area, s: seq<Node>, vmStart: nat, length: nat) {
    vmStart + length < UINT32 && forall j :: 1 <= j < |s| ==> Apart(Area(vmStart, vmStart + length), area(s[j]))
  }

  /** The end of the highest area below `x`, or 0. */
  ghost function Floor(area: Node -> Area, s: seq<Node>, x: nat): (y: nat)
    ensures y <= x && forall j :: 1 <= j < |s| && area(s[j]).vmEnd <= x ==> area(s[j]).vmEnd <= y
    ensures y == 0 || exists j :: 1 <= j < |s| && area(s[j]).vmEnd == y
  {
    if |s| <= 1 then 0
    else
      var y, e := Floor(area, s[..|s| - 1], x), area(s[|s| - 1]).vmEnd;
      if y < e <= x then e else y
  }

  /**
   find_free_vm_area: backwards over the list, the first pair of neighbours far enough apart; when
   there is none, no gap is wide enough. On every list the spot is free if and only if the room below
   the area that it ends at is large enough.
   */
  method FindFree(head: Node, area: Node -> Area, length: nat, ghost U: set<Node>, ghost s: seq<Node>)
    returns (r: Spot, ghost k: nat)
    requires WellLinked(U) && Ring(Next(U), s) && |s| > 0 && s[0] == head
    requires NonEmptyAndApart(area, s) && length < UINT32
    ensures r.NoSpot? ==> forall j :: 2 <= j < |s| ==> GapBefore(area, s, j) < length
    ensures r.Spot? ==> Chosen(area, s, length, k) && r.vmStart == SpotAt(area, s[k], length)
    ensures r.Spot? ==>
      var x := area(s[k]).vmStart;
      Free(area, s, r.vmStart, length) <==> length <= x - Floor(area, s, x)
    ensures r.Spot? && Ascending(area, s) ==>
      && area(s[k - 1]).vmEnd <= r.vmStart && r.vmStart + length == area(s[k]).vmStart
      && Free(area, s, r.vmStart, length)
  {
    hide WellLinked, Ring, Next, NonEmptyAndApart, Ascending, Gap, Free, Floor;
    var it := head.prev;
    k := |s| - 1;
    RingBack(U, s, 0);
    while it != head
      invariant 0 <= k < |s| && it == s[k]
      invariant forall j :: k < j < |s| && j >= 2 ==> GapBefore(area, s, j) < length
      decreases k
    {
      RingBack(U, s, k);
      RingBack(U, s, k - 1);
      if it.prev != head {
        var available := Gap(area(it.prev), area(it));
        if available >= length {
          r := Spot(SpotAt(area, it, length));
          SpotIsFree(area, s, k, length);
          FreeExactly(area, s, k, length);
          return;
        }
      }
      it := it.prev;
      k := k - 1;
    }
    RingBack(U, s, k);
    r := NoSpot;
  }

  lemma FreeExactly(area: Node -> Area, s: seq<Node>, k: nat, length: nat)
    requires NonEmptyAndApart(area, s) && 1 <= k < |s| && length < UINT32
    ensures var x := area(s[k]).vmStart;
            Free(area, s, SpotAt(area, s[k], length), length) <==> length <= x - Floor(area, s, x)
  {
    hide Floor;
    var x, vmStart := area(s[k]).vmStart, SpotAt(area, s[k], length);
    var y := Floor(area, s, x);
    if length > x {
      assert vmStart == x - length + UINT32;
    } else {
      assert vmStart == x - length;
      if Free(area, s, vmStart, length) && y > 0 {
        var j :| 1 <= j < |s| && area(s[j]).vmEnd == y;
        assert Apart(Area(vmStart, vmStart + length), area(s[j]));
      }
      forall j | 1 <= j < |s| && length <= x - y
        ensures Apart(Area(vmStart, vmStart + length), area(s[j]))
      {
        BelowOrAbove(area, s, k, j);
      }
    }
  }

  lemma BelowOrAbove(area: Node -> Area, s: seq<Node>, k: nat, j: nat)
    requires NonEmptyAndApart(area, s) && 1 <= k < |s| && 1 <= j < |s|
    ensures area(s[j]).vmEnd <= area(s[k]).vmStart || area(s[k]).vmStart <= area(s[j]).vmStart
  {
    if j < k {
      assert Apart(area(s[j]), area(s[k]));
    } else if k < j {
      assert Apart(area(s[k]), area(s[j]));
    }
  }

  /** In address order the spot is the end of the gap. */
  lemma SpotIsFree(area: Node -> Area, s: seq<Node>, k: nat, length: nat)
    requires NonEmptyAndApart(area, s) && 2 <= k < |s| && length <= GapBefore(area, s, k)
    ensures var vmStart := SpotAt(area, s[k], length);
            Ascending(area, s) ==>
              && area(s[k - 1]).vmEnd <= vmStart && vmStart + length == area(s[k]).vmStart
              && Free(area, s, vmStart, length)
  {
    if Ascending(area, s) {
      var prev, here := area(s[k - 1]), area(s[k]);
      assert Gap(prev, here) == here.vmStart - prev.vmEnd;
      var vmStart := here.vmStart - length;
      assert prev.vmEnd <= vmStart && vmStart % UINT32 == vmStart;
      forall j | 1 <= j < |s|
        ensures Apart(Area(vmStart, vmStart + length), area(s[j]))
      {
        if j < k {
          assert area(s[j]).vmEnd <= prev.vmEnd;
        } else {
          assert here.vmStart <= area(s[j]).vmStart;
        }
      }
    }
  }

  // ---------------------------------------------------------------------------
  // When the search can be trusted
  // ---------------------------------------------------------------------------

  /**
   On a list that sorting leaves, every spot that can be chosen is free if and only if the list is in
   address order. Where it is not, two touching areas are swapped, and there is a length for which the
   search fails: either the difference between the two wraps and the spot passes 2^32, or the spot
   behind the two lies on top of the one listed first.
   */
  lemma TrustedExactly(area: Node -> Area, s: seq<Node>)
    requires NonEmptyAndApart(area, s) && NoInversion(area, s)
    ensures Ascending(area, s) <==>
            forall length: nat, k: nat :: length < UINT32 && Chosen(area, s, length, k) ==>
              Free(area, s, SpotAt(area, s[k], length), length)
  {
    hide NonEmptyAndApart, NoInversion, Ascending, Free, SpotAt, GapBefore;
    if Ascending(area, s) {
      forall length: nat, k: nat | length < UINT32 && Chosen(area, s, length, k)
        ensures Free(area, s, SpotAt(area, s[k], length), length)
      {
        ChosenMeans(area, s, length, k);
        SpotIsFree(area, s, k, length);
      }
    } else {
      var length, k := BadLength(area, s);
      assert length < UINT32 && Chosen(area, s, length, k);
    }
  }

  lemma ChosenMeans(area: Node -> Area, s: seq<Node>, length: nat, k: nat)
    requires Chosen(area, s, length, k)
    ensures 2 <= k < |s| && length <= GapBefore(area, s, k)
  {
  }

  lemma BadLength(area: Node -> Area, s: seq<Node>) returns (length: nat, k: nat)
    requires NonEmptyAndApart(area, s) && NoInversion(area, s) && !Ascending(area, s)
    ensures length < UINT32 && Chosen(area, s, length, k) && !Free(area, s, SpotAt(area, s[k], length), length)
  {
    hide NonEmptyAndApart, NoInversion, Ascending, Free, GapBefore, TailAscends;
    TailEnds(area, s);
    var b := LastBreak(area, s, |s| - 1);
    WrappedGap(area, s, b);
    forall j | b + 1 < j < |s|
      ensures GapBefore(area, s, j) < GapBefore(area, s, b)
    {
      LaterGap(area, s, b, j);
    }
    if b + 1 < |s| && GapBefore(area, s, b + 1) >= GapBefore(area, s, b) {
      k, length := b + 1, GapBefore(area, s, b + 1);
      CoversTheOther(area, s, b);
    } else {
      k, length := b, GapBefore(area, s, b);
      FreeExactly(area, s, b, length);
    }
  }

  ghost predicate TailAscends(area: Node -> Area, s: seq<Node>, b: nat) {
    forall i, j :: b <= i < j < |s| ==> area(s[i]).vmEnd <= area(s[j]).vmStart
  }

  lemma TailEnds(area: Node -> Area, s: seq<Node>)
    ensures |s| > 0 ==> TailAscends(area, s, |s| - 1)
    ensures !Ascending(area, s) ==> |s| >= 3
    ensures TailAscends(area, s, 1) ==> Ascending(area, s)
  {
  }

  lemma TailGrows(area: Node -> Area, s: seq<Node>, b: nat)
    requires NonEmptyAndApart(area, s) && 2 <= b < |s| && TailAscends(area, s, b)
    requires area(s[b - 1]).vmEnd <= area(s[b]).vmStart
    ensures TailAscends(area, s, b - 1)
  {
    forall i, j | b - 1 <= i < j < |s|
      ensures area(s[i]).vmEnd <= area(s[j]).vmStart
    {
      if i == b - 1 && j > b {
        assert area(s[b]).vmEnd <= area(s[j]).vmStart;
      }
    }
  }

  /** The last pair of neighbours that are the wrong way round. */
  lemma LastBreak(area: Node -> Area, s: seq<Node>, from: nat) returns (b: nat)
    requires NonEmptyAndApart(area, s) && !Ascending(area, s) && 1 <= from < |s| && TailAscends(area, s, from)
    ensures 2 <= b < |s| && area(s[b]).vmStart < area(s[b - 1]).vmEnd && TailAscends(area, s, b)
    decreases from
  {
    hide NonEmptyAndApart, Ascending, TailAscends;
    TailEnds(area, s);
    if area(s[from]).vmStart < area(s[from - 1]).vmEnd && from >= 2 {
      b := from;
    } else {
      if from >= 2 {
        TailGrows(area, s, from);
      }
      b := LastBreak(area, s, from - 1);
    }
  }

  /** Neighbours the wrong way round touch, and the difference between them wraps. */
  lemma WrappedGap(area: Node -> Area, s: seq<Node>, b: nat)
    requires NonEmptyAndApart(area, s) && NoInversion(area, s)
    requires 2 <= b < |s| && area(s[b]).vmStart < area(s[b - 1]).vmEnd
    ensures area(s[b]).vmEnd == area(s[b - 1]).vmStart
    ensures GapBefore(area, s, b) == area(s[b]).vmStart - area(s[b - 1]).vmEnd + UINT32 < UINT32
    ensures GapBefore(area, s, b) > area(s[b]).vmStart
  {
    var x, y := area(s[b - 1]), area(s[b]);
    assert Apart(x, y) && !Compare(area)(s[b - 1], s[b]);
    assert x.vmEnd < UINT32 && y.vmStart < y.vmEnd && x.vmStart < x.vmEnd;
    WrapsBelow(y.vmStart - x.vmEnd);
  }

  lemma WrapsBelow(x: int)
    requires 0 - UINT32 < x < UINT32
    ensures x % UINT32 == if x < 0 then x + UINT32 else x
  {
  }

  lemma LaterGap(area: Node -> Area, s: seq<Node>, b: nat, j: nat)
    requires NonEmptyAndApart(area, s) && NoInversion(area, s) && TailAscends(area, s, b)
    requires 2 <= b && b + 1 < j < |s| && area(s[b]).vmStart < area(s[b - 1]).vmEnd
    ensures GapBefore(area, s, j) < GapBefore(area, s, b)
  {
    hide NonEmptyAndApart, NoInversion, GapBefore;
    WrappedGap(area, s, b);
    NextIsAbove(area, s, b, b + 1);
    PlainGap(area, s, j);
    if b + 1 < j - 1 {
      assert area(s[b + 1]).vmEnd <= area(s[j - 1]).vmStart;
    }
    Sizes(area, s, b + 1);
    Sizes(area, s, j - 1);
    Sizes(area, s, j);
  }

  lemma Sizes(area: Node -> Area, s: seq<Node>, j: nat)
    requires NonEmptyAndApart(area, s) && 1 <= j < |s|
    ensures area(s[j]).vmStart < area(s[j]).vmEnd < UINT32
  {
  }

  lemma PlainGap(area: Node -> Area, s: seq<Node>, j: nat)
    requires NonEmptyAndApart(area, s) && 2 <= j < |s| && area(s[j - 1]).vmEnd <= area(s[j]).vmStart
    ensures GapBefore(area, s, j) == area(s[j]).vmStart - area(s[j - 1]).vmEnd < UINT32
  {
    Sizes(area, s, j);
    WrapsBelow(area(s[j]).vmStart - area(s[j - 1]).vmEnd);
  }

  /** What follows the swapped pair lies above both. */
  lemma NextIsAbove(area: Node -> Area, s: seq<Node>, b: nat, j: nat)
    requires NonEmptyAndApart(area, s) && TailAscends(area, s, b) && 2 <= b < j < |s|
    requires area(s[b]).vmEnd == area(s[b - 1]).vmStart
    ensures area(s[b - 1]).vmEnd <= area(s[j]).vmStart
  {
    assert Apart(area(s[b - 1]), area(s[j]));
    Sizes(area, s, b - 1);
    Sizes(area, s, j);
    assert area(s[b]).vmEnd <= area(s[j]).vmStart;
  }

  lemma CoversTheOther(area: Node -> Area, s: seq<Node>, b: nat)
    requires NonEmptyAndApart(area, s) && NoInversion(area, s) && TailAscends(area, s, b)
    requires 2 <= b && b + 1 < |s| && area(s[b]).vmStart < area(s[b - 1]).vmEnd
    ensures GapBefore(area, s, b + 1) < UINT32
    ensures var length := GapBefore(area, s, b + 1); !Free(area, s, SpotAt(area, s[b + 1], length), length)
  {
    hide NonEmptyAndApart, NoInversion, GapBefore;
    WrappedGap(area, s, b);
    NextIsAbove(area, s, b, b + 1);
    PlainGap(area, s, b + 1);
    Sizes(area, s, b - 1);
    Sizes(area, s, b + 1);
    var length := GapBefore(area, s, b + 1);
    WrapsBelow(area(s[b + 1]).vmStart - length);
    var vmStart := SpotAt(area, s[b + 1], length);
    assert vmStart == area(s[b]).vmEnd && vmStart + length == area(s[b + 1]).vmStart;
    assert !Apart(Area(vmStart, vmStart + length), area(s[b - 1]));
  }

  // ---------------------------------------------------------------------------
  // A forked process
  // ---------------------------------------------------------------------------

  ghost predicate Descending(area: Node -> Area, s: seq<Node>) {
    forall p, q :: 1 <= p < q < |s| ==> area(s[q]).vmEnd <= area(s[p]).vmStart
  }

  /**
   On a list in the opposite order the last pair is chosen whenever its wrapped difference allows, and
   the spot is free if and only if it fits below the lowest area.
   */
  lemma DescendingSearch(area: Node -> Area, s: seq<Node>, length: nat)
    requires NonEmptyAndApart(area, s) && Descending(area, s) && |s| >= 3
    requires length <= GapBefore(area, s, |s| - 1)
    ensures length < UINT32 && Chosen(area, s, length, |s| - 1)
    ensures Free(area, s, SpotAt(area, s[|s| - 1], length), length) <==> length <= area(s[|s| - 1]).vmStart
  {
    hide Free, SpotAt, Floor;
    var n := |s| - 1;
    var x := area(s[n]).vmStart;
    FreeExactly(area, s, n, length);
    forall j | 1 <= j < |s|
      ensures area(s[j]).vmEnd > x
    {
      Sizes(area, s, j);
      Sizes(area, s, n);
    }
  }

  ghost function Reversed(a: seq<Node>): (r: seq<Node>)
    ensures |r| == |a| && forall i :: 0 <= i < |a| ==> r[i] == a[|a| - 1 - i]
  {
    if a == [] then [] else Reversed(a[1..]) + [a[0]]
  }

  lemma ReversedGrows(a: seq<Node>, k: nat)
    requires k < |a|
    ensures Reversed(a[..k + 1]) == [a[k]] + Reversed(a[..k])
  {
  }

  /**
   clone_process_image: every area is copied to the front of the new list, so the copies come out in
   the opposite order, and they are not sorted.
   */
  method CloneAreas(list: Node, copies: seq<Node>, ghost U: set<Node>)
    requires WellLinked(U) && list in U && list.next == list && Distinct([list] + copies)
    requires forall i :: 0 <= i < |copies| ==> copies[i] in U && copies[i].next == copies[i]
    modifies U
    ensures WellLinked(U) && Ring(Next(U), [list] + Reversed(copies))
  {
    hide WellLinked, Ring, Reversed, Distinct;
    Alone(list, U);
    assert Reversed(copies[..0]) == [] by {
      assert copies[..0] == [];
    }
    assert [list] + [] == [list];
    for k := 0 to |copies|
      invariant WellLinked(U) && Ring(Next(U), [list] + Reversed(copies[..k]))
      invariant forall i :: k <= i < |copies| ==> copies[i].next == copies[i]
    {
      ghost var before := [list] + Reversed(copies[..k]);
      NotYetCopied(list, copies, k);
      LoneNode(copies[k], U);
      InsertFirst(list, copies[k], U, before);
      ReversedGrows(copies, k);
      assert With(before, 0, copies[k]) == [list] + Reversed(copies[..k + 1]);
    }
    assert copies[..|copies|] == copies;
  }

  lemma NotYetCopied(list: Node, copies: seq<Node>, k: nat)
    requires Distinct([list] + copies) && k < |copies|
    ensures copies[k] !in [list] + Reversed(copies[..k])
    ensures forall i :: k < i < |copies| ==> copies[i] != copies[k] && copies[i] !in [list] + Reversed(copies[..k])
  {
    hide Reversed, Distinct;
    NotAmong(list, copies, k, k);
    forall i | k < i < |copies|
      ensures copies[i] != copies[k] && copies[i] !in [list] + Reversed(copies[..k])
    {
      NotAmong(list, copies, k, i);
      DifferentCopies(list, copies, k, i);
    }
  }

  lemma DifferentCopies(list: Node, copies: seq<Node>, i: nat, j: nat)
    requires Distinct([list] + copies) && i < |copies| && j < |copies|
    ensures copies[i] != list && (copies[i] == copies[j] ==> i == j)
  {
    var s := [list] + copies;
    assert s[0] == list && s[i + 1] == copies[i] && s[j + 1] == copies[j];
  }

  lemma NotAmong(list: Node, copies: seq<Node>, k: nat, i: nat)
    requires Distinct([list] + copies) && k <= i < |copies|
    ensures copies[i] !in [list] + Reversed(copies[..k])
  {
    hide Reversed, Distinct;
    var r := Reversed(copies[..k]);
    DifferentCopies(list, copies, i, i);
    forall j | 0 <= j < |r|
      ensures r[j] != copies[i]
    {
      assert r[j] == copies[..k][k - 1 - j] == copies[k - 1 - j];
      DifferentCopies(list, copies, k - 1 - j, i);
    }
  }

  /** The copies of areas in address order are in the opposite order. */
  lemma ClonedDescends(area: Node -> Area, before: seq<Node>, list: Node, copies: seq<Node>)
    requires |before| == |copies| + 1 && forall i :: 0 <= i < |copies| ==> area(copies[i]) == area(before[i + 1])
    ensures Ascending(area, before) ==> Descending(area, [list] + Reversed(copies))
    ensures NonEmptyAndApart(area, before) ==> NonEmptyAndApart(area, [list] + Reversed(copies))
  {
    hide Reversed;
    var s, n := [list] + Reversed(copies), |copies|;
    assert forall p :: 1 <= p <= n ==> s[p] == copies[n - p] && area(s[p]) == area(before[n - p + 1]);
    if NonEmptyAndApart(area, before) {
      forall p, q | 1 <= p < q < |s|
        ensures Apart(area(s[p]), area(s[q]))
      {
        assert Apart(area(before[n - q + 1]), area(before[n - p + 1]));
      }
    }
  }

  /**
   Where the order is missing, so is the guarantee. Three areas are added to an empty map, `b` starting
   where `a` ends; `b` stays in front of `a`, the 32-bit difference between them wraps, and the spot
   found lies on top of `c`.
   */
  method TouchingRun(list: Node, a: Node, b: Node, c: Node, area: Node -> Area, ghost U: set<Node>)
    returns (r: Spot, ghost s: seq<Node>)
    requires WellLinked(U) && list in U && a in U && b in U && c in U && Distinct([list, a, b, c])
    requires list.next == list && a.next == a && b.next == b && c.next == c
    requires area(c) == Area(0x0000, 0x1000) && area(a) == Area(0x1000, 0x2000) && area(b) == Area(0x2000, 0x3000)
    modifies U
    ensures WellLinked(U) && Ring(Next(U), s) && s == [list, c, b, a]
    ensures r.Spot? && !Apart(Area(r.vmStart, r.vmStart + 0x1000), area(c))
  {
    hide WellLinked, Ring, SortsTo, Lower, NonEmptyAndApart, NoneBackwards, Ascending, NoInversion, GapBefore,
         StartsAtAnEnd, Distinct, Free, Floor;
    Different(list, a, b, c);
    ghost var steps, k;
    Alone(list, U);
    LoneNode(a, U);
    AreasFit(area, list, a, b, c);
    NoneIsAfter(area, list, a, b, c);
    AddedFirst(list, a, b, c);
    s, steps := AddArea(list, a, area, U, [list]);
    StaysAsItIs(area, With([list], 0, a), steps, s);
    LoneNode(b, U);
    s, steps := AddArea(list, b, area, U, [list, a]);
    StaysAsItIs(area, With([list, a], 0, b), steps, s);
    LoneNode(c, U);
    s, steps := AddArea(list, c, area, U, [list, b, a]);
    StaysAsItIs(area, With([list, b, a], 0, c), steps, s);
    r, k := FindFree(list, area, 0x1000, U, s);
    assert GapBefore(area, s, 3) == 0xFFFF_E000;
  }

  /** The other way to fail, without any wrap-around: the spot found lies on top of the area listed first. */
  lemma SpotOnTop(area: Node -> Area, head: Node, b: Node, a: Node, d: Node)
    requires area(b) == Area(0x2000, 0x3000) && area(a) == Area(0x1000, 0x2000) && area(d) == Area(0x9000, 0xA000)
    ensures var s := [head, b, a, d];
            && NonEmptyAndApart(area, s) && NoInversion(area, s) && Chosen(area, s, 0x7000, 3)
            && SpotAt(area, d, 0x7000) == 0x2000 && !Free(area, s, 0x2000, 0x7000)
  {
    var s := [head, b, a, d];
    assert GapBefore(area, s, 3) == 0x7000;
    assert !Apart(Area(0x2000, 0x9000), area(s[1]));
  }

  lemma StaysAsItIs(area: Node -> Area, before: seq<Node>, steps: seq<Exchange>, s: seq<Node>)
    requires SortsTo(area, before, steps, s) && NoInversion(area, before)
    ensures s == before
  {
    SortedStays(Compare(area), before, steps, s);
  }

  lemma Alone(x: Node, U: set<Node>)
    requires WellLinked(U) && x in U && x.next == x
    ensures Ring(Next(U), [x])
  {
  }

  lemma Different(list: Node, a: Node, b: Node, c: Node)
    requires Distinct([list, a, b, c])
    ensures list != a && list != b && list != c && a != b && a != c && b != c
  {
    var s := [list, a, b, c];
    assert s[0] != s[1] && s[0] != s[2] && s[0] != s[3] && s[1] != s[2] && s[1] != s[3] && s[2] != s[3];
  }

  lemma AreasFit(area: Node -> Area, list: Node, a: Node, b: Node, c: Node)
    requires area(c) == Area(0x0000, 0x1000) && area(a) == Area(0x1000, 0x2000) && area(b) == Area(0x2000, 0x3000)
    ensures NoneBackwards(area, [list, a]) && NoneBackwards(area, [list, b, a])
    ensures NoneBackwards(area, [list, c, b, a]) && NonEmptyAndApart(area, [list, c, b, a])
  {
  }

  lemma NoneIsAfter(area: Node -> Area, list: Node, a: Node, b: Node, c: Node)
    requires area(c) == Area(0x0000, 0x1000) && area(a) == Area(0x1000, 0x2000) && area(b) == Area(0x2000, 0x3000)
    ensures NoInversion(area, [list, a]) && NoInversion(area, [list, b, a]) && NoInversion(area, [list, c, b, a])
    ensures GapBefore(area, [list, c, b, a], 3) == 0xFFFF_E000
  {
  }

  lemma AddedFirst(list: Node, a: Node, b: Node, c: Node)
    ensures With([list], 0, a) == [list, a] && With([list, a], 0, b) == [list, b, a]
    ensures With([list, b, a], 0, c) == [list, c, b, a]
  {
  }

  lemma RingBack(U: set<Node>, s: seq<Node>, k: nat)
    requires WellLinked(U) && Ring(Next(U), s) && k < |s|
    ensures s[k].prev == s[if k > 0 then k - 1 else |s| - 1]
    ensures k > 0 ==> s[k] != s[0]
  {
  }
}
