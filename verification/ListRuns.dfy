/**
 Whole runs of list operations. A run is a list of calls; executing it on the nodes computes the same
 permutation as folding the permutation operations, no node is ever lost or doubled, and every node
 is on a ring after every run.
 */
module ListRuns {
  import L = ListHead
  import opened Rings

  type Node = L.Node
  type Links = L.Links

  datatype Call =
    | InsertAfter(newEntry: Node, location: Node)
    | InsertBefore(newEntry: Node, location: Node)
    | Remove(entry: Node)
    | Pop(head: Node)
    | Append(main: Node, secondary: Node)
    | Replace(entry1: Node, entry2: Node)
    | Swap(entry1: Node, entry2: Node)

  /** What callers owe: known nodes, inserting only unlinked ones, never appending a list to itself. */
  ghost predicate Enabled(n: Links, c: Call) {
    match c
    case InsertAfter(e, loc) => e in n && loc in n && n[e] == e
    case InsertBefore(e, loc) => e in n && loc in n && n[e] == e
    case Remove(e) => e in n
    case Pop(h) => h in n && n[h] in n
    case Append(m, s) => m in n && s in n && m != s
    case Replace(a, b) => a in n && b in n
    case Swap(a, b) => a in n && b in n
  }

  ghost function Effect(n: Links, c: Call): (r: Links)
    requires Enabled(n, c)
  {
    match c
    case InsertAfter(e, loc) => L.LinkedAfter(n, e, loc)
    case InsertBefore(e, loc) => L.LinkedBefore(n, e, loc)
    case Remove(e) => L.Unlinked(n, e)
    case Pop(h) => L.Unlinked(n, n[h])
    case Append(m, s) => if n[m] != m && n[s] != s then L.Appended(n, m, s) else n
    case Replace(a, b) => L.Exchanged(L.Unlinked(n, b), a, b)
    case Swap(a, b) =>
      var e := L.Exchanged(n, a, b);
      if a == b || n[b] != b then e else L.LinkedAfter(e, a, b)
  }

  /** The entry that a call returns: only list_head_pop returns one. */
  ghost function Answer(n: Links, c: Call): (r: L.Node?)
    requires Enabled(n, c)
  {
    if c.Pop? && n[c.head] != c.head then n[c.head] else null
  }

  ghost predicate AllEnabled(n: Links, run: seq<Call>)
    decreases |run|
  {
    run == [] || (Enabled(n, run[0]) && AllEnabled(Effect(n, run[0]), run[1..]))
  }

  ghost function RunEffect(n: Links, run: seq<Call>): (r: Links)
    requires AllEnabled(n, run)
    decreases |run|
  {
    if run == [] then n else RunEffect(Effect(n, run[0]), run[1..])
  }

  ghost function Answers(n: Links, run: seq<Call>): (r: seq<L.Node?>)
    requires AllEnabled(n, run)
    decreases |run|
  {
    if run == [] then [] else [Answer(n, run[0])] + Answers(Effect(n, run[0]), run[1..])
  }

  ghost predicate Permutation(n: Links) {
    L.Injective(n) && n.Values <= n.Keys
  }

  lemma EffectIsPermutation(n: Links, c: Call)
    requires Permutation(n) && Enabled(n, c)
    ensures Permutation(Effect(n, c)) && Effect(n, c).Keys == n.Keys
  {
    match c
    case InsertAfter(e, loc) =>
    case InsertBefore(e, loc) =>
    case Remove(e) =>
    case Pop(h) =>
    case Append(m, s) =>
    case Replace(a, b) =>
    case Swap(a, b) =>
  }

  /** After any run the nodes are the same and every one of them is on a ring of these nodes. */
  lemma {:induction false} RunKeepsRings(n: Links, run: seq<Call>, x: Node) returns (s: seq<Node>)
    requires Permutation(n) && AllEnabled(n, run) && x in n
    ensures RunEffect(n, run).Keys == n.Keys
    ensures Ring(RunEffect(n, run), s) && s[0] == x
    decreases |run|
  {
    hide Permutation, L.Injective, Ring, Effect;
    if run == [] {
      s := AnyRing(n, x);
    } else {
      EffectIsPermutation(n, run[0]);
      s := RunKeepsRings(Effect(n, run[0]), run[1..], x);
    }
  }

  lemma AnyRing(n: Links, x: Node) returns (s: seq<Node>)
    requires Permutation(n) && x in n
    ensures Ring(n, s) && |s| > 0 && s[0] == x
  {
    s := RingThrough(n, x);
  }

  function Pops(head: Node, m: nat): (run: seq<Call>)
    ensures |run| == m && forall k :: 0 <= k < m ==> run[k] == Pop(head)
  {
    seq(m, _ => Pop(head))
  }

  /** Popping takes the entries of a list in their order, and then nothing. */
  lemma {:induction false} PopsInOrder(n: Links, s: seq<Node>, m: nat)
    requires Ring(n, s)
    ensures AllEnabled(n, Pops(s[0], m)) && |Answers(n, Pops(s[0], m))| == m
    ensures forall k :: 0 <= k < m ==> Answers(n, Pops(s[0], m))[k] == if k + 1 < |s| then s[k + 1] else null
    decreases m
  {
    hide Ring, L.Unlinked;
    if m > 0 {
      OnePop(n, s);
      var run, next := Pops(s[0], m), Effect(n, Pop(s[0]));
      var rest := if |s| == 1 then s else [s[0]] + s[2..];
      assert run[0] == Pop(s[0]) && run[1..] == Pops(s[0], m - 1);
      PopsInOrder(next, rest, m - 1);
      assert Answers(n, run) == [Answer(n, run[0])] + Answers(next, run[1..]);
    }
  }

  lemma OnePop(n: Links, s: seq<Node>)
    requires Ring(n, s)
    ensures |s| > 0 && Enabled(n, Pop(s[0]))
    ensures Answer(n, Pop(s[0])) == if |s| > 1 then s[1] else null
    ensures Ring(Effect(n, Pop(s[0])), if |s| == 1 then s else [s[0]] + s[2..])
  {
    hide L.Unlinked;
    if |s| == 1 {
      RingUnlinked(n, s, 0);
      assert s == [s[0]];
    } else {
      RingUnlinked(n, s, 1);
      assert n[s[0]] == s[1] && Without(s, 1) == [s[0]] + s[2..];
      assert s[0] != s[1];
    }
  }

  method Execute(run: seq<Call>, ghost U: set<Node>) returns (values: seq<L.Node?>)
    requires L.WellLinked(U) && AllEnabled(L.Next(U), run)
    modifies U
    ensures L.WellLinked(U)
    ensures L.Next(U) == RunEffect(old(L.Next(U)), run) && values == Answers(old(L.Next(U)), run)
  {
    hide L.WellLinked, L.Next, Enabled, Effect, Answer;
    values := [];
    assert run[0..] == run;
    for k := 0 to |run|
      invariant L.WellLinked(U)
      invariant AllEnabled(L.Next(U), run[k..])
      invariant RunEffect(L.Next(U), run[k..]) == RunEffect(old(L.Next(U)), run)
      invariant values + Answers(L.Next(U), run[k..]) == Answers(old(L.Next(U)), run)
    {
      assert run[k..][0] == run[k] && run[k..][1..] == run[k + 1..];
      var value := Perform(run[k], U);
      values := values + [value];
    }
    assert run[|run|..] == [];
  }

  lemma UnlinkedAlone(n: Links, e: Node)
    requires L.Injective(n) && e in n && n[e] == e
    ensures L.Unlinked(n, e) == n
  {
  }

  method Perform(c: Call, ghost U: set<Node>) returns (value: L.Node?)
    requires L.WellLinked(U) && Enabled(L.Next(U), c)
    modifies U
    ensures L.WellLinked(U)
    ensures L.Next(U) == Effect(old(L.Next(U)), c) && value == Answer(old(L.Next(U)), c)
  {
    hide L.WellLinked, L.Next, L.Injective, L.Unlinked, L.LinkedAfter, L.LinkedBefore, L.Exchanged, L.Appended;
    L.NextIsPermutation(U);
    value := null;
    match c
    case InsertAfter(e, loc) =>
      L.LoneNode(e, U);
      L.InsertAfter(e, loc, U);
    case InsertBefore(e, loc) =>
      L.LoneNode(e, U);
      L.InsertBefore(e, loc, U);
    case Remove(e) =>
      L.Remove(e, U);
    case Pop(h) =>
      if L.Next(U)[h] == h {
        UnlinkedAlone(L.Next(U), h);
      }
      value := L.Pop(h, U);
    case Append(m, s) =>
      L.Append(m, s, U);
    case Replace(a, b) =>
      L.Replace(a, b, U);
    case Swap(a, b) =>
      L.Swap(a, b, U);
  }
}
