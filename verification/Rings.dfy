/**
 Rings as sequences of nodes. A permutation of a finite set of nodes splits into cycles; a list with
 head `h` and entries `c` is the cycle `[h] + c`. The lemmas say what each list operation does to
 the sequence of the ring it works on, and that it leaves the other rings alone.
 */
module Rings {
  import opened ListHead

  ghost predicate Distinct<T>(s: seq<T>) {
    forall i, j :: 0 <= i < j < |s| ==> s[i] != s[j]
  }

  ghost predicate Disjoint<T>(s: seq<T>, t: seq<T>) {
    forall i, j :: 0 <= i < |s| && 0 <= j < |t| ==> s[i] != t[j]
  }

  ghost function Without<T>(s: seq<T>, k: nat): (r: seq<T>)
    requires k < |s|
  {
    s[..k] + s[k + 1..]
  }

  ghost function Inserted<T>(s: seq<T>, k: nat, x: T): (r: seq<T>)
    requires k <= |s|
  {
    s[..k] + [x] + s[k..]
  }

  /** `s` lists, in link order, all the nodes of one ring of `n`. */
  ghost predicate Ring(n: Links, s: seq<Node>) {
    && |s| > 0
    && Distinct(s)
    && (forall i :: 0 <= i < |s| ==> s[i] in n)
    && n[s[|s| - 1]] == s[0]
    && (forall i {:trigger n[s[i]]} :: 0 <= i < |s| - 1 ==> n[s[i]] == s[i + 1])
  }

  // ---------------------------------------------------------------------------
  // Effects on rings
  // ---------------------------------------------------------------------------

  lemma RingUnlinked(n: Links, s: seq<Node>, k: nat)
    requires Ring(n, s) && k < |s|
    ensures Ring(Unlinked(n, s[k]), [s[k]])
    ensures |s| > 1 ==> Ring(Unlinked(n, s[k]), Without(s, k))
  {
    hide Ring, Unlinked;
    RingAt(n, s, k);
    UnlinkedAt(n, s, k, k);
    var m := Unlinked(n, s[k]);
    IsRing(m, [s[k]]);
    if |s| > 1 {
      var r := Without(s, k);
      forall i | 0 <= i < |r|
        ensures r[i] in m && m[r[i]] == r[if i + 1 < |r| then i + 1 else 0]
      {
        UnlinkedAt(n, s, k, if i < k then i else i + 1);
      }
      WithoutDistinct(n, s, k);
      IsRing(m, r);
    }
  }

  lemma RingAt(n: Links, s: seq<Node>, k: nat)
    requires Ring(n, s) && k < |s|
    ensures s[k] in n && n[s[k]] == s[if k + 1 < |s| then k + 1 else 0]
  {
  }

  /** The link of the node at `j` once the node at `k` is taken out. */
  lemma UnlinkedAt(n: Links, s: seq<Node>, k: nat, j: nat)
    requires Ring(n, s) && k < |s| && j < |s|
    ensures s[k] in n && s[j] in Unlinked(n, s[k])
    ensures var next := if j + 1 < |s| then j + 1 else 0;
            var after := if k + 1 < |s| then k + 1 else 0;
            Unlinked(n, s[k])[s[j]] == if j == k then s[k] else if next == k then s[after] else s[next]
  {
    hide Ring;
    RingAt(n, s, j);
    RingAt(n, s, k);
    RingDistinct(n, s, j, k);
    RingDistinct(n, s, if j + 1 < |s| then j + 1 else 0, k);
  }

  lemma RingDistinct(n: Links, s: seq<Node>, i: nat, j: nat)
    requires Ring(n, s) && i < |s| && j < |s|
    ensures s[i] == s[j] <==> i == j
  {
  }

  lemma WithoutDistinct(n: Links, s: seq<Node>, k: nat)
    requires Ring(n, s) && k < |s|
    ensures Distinct(Without(s, k))
  {
    hide Ring;
    var r := Without(s, k);
    forall i, j | 0 <= i < j < |r|
      ensures r[i] != r[j]
    {
      RingDistinct(n, s, if i < k then i else i + 1, if j < k then j else j + 1);
    }
  }

  lemma IsRing(m: Links, r: seq<Node>)
    requires |r| > 0 && Distinct(r)
    requires forall i :: 0 <= i < |r| ==> r[i] in m && m[r[i]] == r[if i + 1 < |r| then i + 1 else 0]
    ensures Ring(m, r)
  {
  }

  lemma RingLinkedAfter(n: Links, s: seq<Node>, k: nat, e: Node)
    requires Ring(n, s) && k < |s| && e in n && e !in s
    ensures Ring(LinkedAfter(n, e, s[k]), Inserted(s, k + 1, e))
  {
    hide Ring, LinkedAfter;
    RingAt(n, s, k);
    var r, m := Inserted(s, k + 1, e), LinkedAfter(n, e, s[k]);
    forall i | 0 <= i < |r|
      ensures r[i] in m && m[r[i]] == r[if i + 1 < |r| then i + 1 else 0]
    {
      LinkedAfterAt(n, s, k, e, if i <= k then i else if i == k + 1 then k else i - 1);
    }
    InsertedDistinct(n, s, k + 1, e);
    IsRing(m, r);
  }

  lemma LinkedAfterAt(n: Links, s: seq<Node>, k: nat, e: Node, j: nat)
    requires Ring(n, s) && k < |s| && e in n && e !in s && j < |s|
    ensures s[k] in n && e in LinkedAfter(n, e, s[k]) && s[j] in LinkedAfter(n, e, s[k])
    ensures LinkedAfter(n, e, s[k])[e] == s[if k + 1 < |s| then k + 1 else 0]
    ensures LinkedAfter(n, e, s[k])[s[j]] == if j == k then e else s[if j + 1 < |s| then j + 1 else 0]
  {
    hide Ring;
    RingAt(n, s, j);
    RingAt(n, s, k);
    RingDistinct(n, s, j, k);
  }

  lemma InsertedDistinct(n: Links, s: seq<Node>, k: nat, e: Node)
    requires Ring(n, s) && k <= |s| && e !in s
    ensures Distinct(Inserted(s, k, e))
  {
    hide Ring;
    var r := Inserted(s, k, e);
    forall i, j | 0 <= i < j < |r|
      ensures r[i] != r[j]
    {
      if i != k && j != k {
        RingDistinct(n, s, if i < k then i else i - 1, if j < k then j else j - 1);
      }
    }
  }

  lemma RingLinkedBefore(n: Links, s: seq<Node>, k: nat, e: Node)
    requires Ring(n, s) && k < |s| && e in n && e !in s
    ensures Ring(LinkedBefore(n, e, s[k]), Inserted(s, k, e))
  {
    hide Ring, LinkedBefore;
    var r, m := Inserted(s, k, e), LinkedBefore(n, e, s[k]);
    forall i | 0 <= i < |r|
      ensures r[i] in m && m[r[i]] == r[if i + 1 < |r| then i + 1 else 0]
    {
      LinkedBeforeAt(n, s, k, e, if i < k then i else if i == k then k else i - 1);
    }
    InsertedDistinct(n, s, k, e);
    IsRing(m, r);
  }

  lemma LinkedBeforeAt(n: Links, s: seq<Node>, k: nat, e: Node, j: nat)
    requires Ring(n, s) && k < |s| && e in n && e !in s && j < |s|
    ensures e in LinkedBefore(n, e, s[k]) && s[j] in LinkedBefore(n, e, s[k]) && LinkedBefore(n, e, s[k])[e] == s[k]
    ensures var next := if j + 1 < |s| then j + 1 else 0;
            LinkedBefore(n, e, s[k])[s[j]] == if next == k then e else s[next]
  {
    hide Ring;
    RingAt(n, s, j);
    RingDistinct(n, s, if j + 1 < |s| then j + 1 else 0, k);
  }

  ghost function Renamed(s: seq<Node>, a: Node, b: Node): (r: seq<Node>) {
    seq(|s|, k requires 0 <= k < |s| => Tau(a, b, s[k]))
  }

  /** An exchange renames the two nodes on every ring, be it one ring or two. */
  lemma RingExchanged(n: Links, s: seq<Node>, a: Node, b: Node)
    requires a in n && b in n && Ring(n, s)
    ensures Ring(Exchanged(n, a, b), Renamed(s, a, b))
  {
  }

  /** Replacing an entry by one from another ring puts that one in its place. */
  lemma RingReplaced(n: Links, s: seq<Node>, k: nat, e: Node)
    requires Ring(n, s) && k < |s| && e in n && e !in s
    ensures Ring(Exchanged(Unlinked(n, e), s[k], e), s[k := e])
  {
    hide Ring;
    LinksStay(n, s);
    SameLinks(n, Unlinked(n, e), s);
    RingExchanged(Unlinked(n, e), s, s[k], e);
    ReplacedIsRenamed(n, s, k, e);
  }

  lemma ReplacedIsRenamed(n: Links, s: seq<Node>, k: nat, e: Node)
    requires Ring(n, s) && k < |s| && e !in s
    ensures Renamed(s, s[k], e) == s[k := e]
  {
  }

  /** Replacing an entry by another one of the same ring takes that one out and puts it in its place. */
  lemma RingReplacedWithin(n: Links, s: seq<Node>, k: nat, j: nat)
    requires Ring(n, s) && k < |s| && j < |s| && k != j
    ensures Ring(Exchanged(Unlinked(n, s[j]), s[k], s[j]), Without(s[k := s[j]], j))
  {
    hide Ring, Unlinked;
    LinksStay(n, s);
    var m := Unlinked(n, s[j]);
    RingUnlinked(n, s, j);
    WithoutParts(n, s, k, j);
    RingExchanged(m, Without(s, j), s[k], s[j]);
  }

  lemma WithoutParts(n: Links, s: seq<Node>, k: nat, j: nat)
    requires Ring(n, s) && k < |s| && j < |s| && k != j
    ensures s[j] in Unlinked(n, s[j]) && s[k] in Unlinked(n, s[j])
    ensures Renamed(Without(s, j), s[k], s[j]) == Without(s[k := s[j]], j)
  {
  }

  lemma RingAppended(n: Links, s: seq<Node>, t: seq<Node>)
    requires Ring(n, s) && Ring(n, t) && Disjoint(s, t) && |s| > 1 && |t| > 1
    ensures Ring(Appended(n, s[0], t[0]), s + t[1..])
    ensures Ring(Appended(n, s[0], t[0]), [t[0]])
  {
  }

  /** The rings that hold none of an operation's arguments stay as they are. */
  lemma OtherRings(n: Links, t: seq<Node>, a: Node, b: Node)
    requires Ring(n, t) && a in n && b in n && a !in t && b !in t
    ensures Ring(Unlinked(n, a), t)
    ensures Ring(LinkedAfter(n, a, b), t)
    ensures Ring(LinkedBefore(n, a, b), t)
    ensures Ring(Exchanged(n, a, b), t)
    ensures Ring(Appended(n, a, b), t)
  {
    hide Ring;
    LinksStay(n, t);
    SameLinks(n, Unlinked(n, a), t);
    SameLinks(n, LinkedAfter(n, a, b), t);
    SameLinks(n, LinkedBefore(n, a, b), t);
    SameLinks(n, Exchanged(n, a, b), t);
    SameLinks(n, Appended(n, a, b), t);
  }

  lemma LinksStay(n: Links, t: seq<Node>)
    requires Ring(n, t)
    ensures forall i :: 0 <= i < |t| ==> t[i] in n && n[t[i]] in t
  {
  }

  lemma SameLinks(n: Links, m: Links, t: seq<Node>)
    requires Ring(n, t)
    requires forall i :: 0 <= i < |t| ==> t[i] in m && m[t[i]] == n[t[i]]
    ensures Ring(m, t)
  {
  }

  /** Every node of a permutation lies on a ring. */
  lemma RingThrough(n: Links, x: Node) returns (s: seq<Node>)
    requires Injective(n) && x in n && n.Values <= n.Keys
    ensures Ring(n, s) && s[0] == x
  {
    s := [x];
    ghost var seen := {x};
    while n[s[|s| - 1]] != x
      invariant |s| > 0 && s[0] == x && Distinct(s)
      invariant forall i :: 0 <= i < |s| ==> s[i] in n
      invariant forall i {:trigger n[s[i]]} :: 0 <= i < |s| - 1 ==> n[s[i]] == s[i + 1]
      invariant forall y :: y in seen <==> y in s
      invariant seen <= n.Keys
      decreases n.Keys - seen
    {
      var y := n[s[|s| - 1]];
      assert y in n.Values;
      forall i | 0 <= i < |s|
        ensures s[i] != y
      {
        if i > 0 {
          assert n[s[i - 1]] == s[i];
        }
      }
      s := s + [y];
      seen := seen + {y};
    }
  }
}
