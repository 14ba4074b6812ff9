/**
 rbtree_tree_insert_node(): one pass down the tree that repairs it on the way. The pass keeps pointers
 to the node reached and to the three above it. A rotation changes who is above whom, but the source
 just moves the pointers on, so that after one the topmost pointer, or the two topmost ones, are stale
 for a step or two. They are not used until they are right again, because the next nodes of the way
 down have just been made black and have no two red children.
 */
module RbInsert {
  import opened RbTree
  import opened RbShape

  datatype Stage = Fresh | TopStale | BothStale

  ghost predicate Calm(q: Tree) {
    q.Node? && !q.red && !(IsRed(q.left) && IsRed(q.right))
  }

  /** The path is the way the search for `v` takes. */
  ghost predicate Route(path: seq<Frame>, v: int) {
    forall i :: 1 <= i < |path| ==> path[i].value != v && (path[i].value < v <==> path[i].dir)
  }

  /** Which of the pointers are right: `p` is the parent, `g` the one above it, `t` the next. */
  ghost predicate Pointers(stage: Stage, path: seq<Frame>, t: RbNode, g: RbNode?, p: RbNode?) {
    var n := |path|;
    match stage
    case Fresh =>
      && p == (if n >= 2 then path[n - 1].ref else null)
      && g == (if n >= 3 then path[n - 2].ref else null)
      && n >= 1 && t == path[if n >= 3 then n - 3 else 0].ref
    case TopStale => n >= 3 && p == path[n - 1].ref && g == path[n - 2].ref
    case BothStale => n >= 2 && p == path[n - 1].ref && g != null
  }

  /** What keeps the next step from needing a pointer that is stale or an uncle that is red. */
  ghost predicate Settled(stage: Stage, path: seq<Frame>, q: Tree, v: int) {
    var n := |path|;
    match stage
    case Fresh =>
      && (n <= 1 ==> !IsRed(q))
      && (n >= 2 && path[n - 1].red ==> Calm(q) || (n >= 3 && !IsRed(path[n - 2].sibling)))
      && (n >= 2 && IsRed(q) ==> !IsRed(path[n - 1].sibling))
    case TopStale => Calm(q)
    case BothStale => IsRed(q) && q.value != v && Calm(Child(q, q.value < v))
  }

  ghost predicate Ready(stage: Stage, path: seq<Frame>, q: Tree, k: int, v: int) {
    path != [] && RedBlack(path, q, k) && Settled(stage, path, q, v) && Route(path, v)
  }

  // ---------------------------------------------------------------------------
  // A change at the node reached
  // ---------------------------------------------------------------------------

  /** The new node, or the colour flip. */
  ghost predicate Changes(q: Tree) {
    q.Leaf? || (IsRed(q.left) && IsRed(q.right))
  }

  ghost function Changed(q: Tree, node: RbNode, v: int): (r: Tree)
    requires Changes(q)
  {
    if q.Leaf? then Node(node, true, v, Leaf, Leaf) else Flipped(q)
  }

  /** Red where a red node may have a red parent; everything else is in order. */
  ghost predicate AlmostRedBlack(path: seq<Frame>, q: Tree, k: int) {
    IsRed(q) && Black(q, k) && Proper(q) && PathBlack(path, k) && PathProper(path, false)
  }

  lemma ChangeFits(stage: Stage, path: seq<Frame>, q: Tree, k: int, v: int, node: RbNode)
    requires Ready(stage, path, q, k, v) && Changes(q)
    ensures stage == Fresh && AlmostRedBlack(path, Changed(q, node, v), k)
    ensures |path| >= 2 && path[|path| - 1].red ==> |path| >= 3 && !IsRed(path[|path| - 2].sibling)
  {
    hide Black, PathBlack, PathProper, Keys;
    if q.Node? {
      FlippedFits(q, k);
    } else {
      NewFits(k, node, v);
    }
  }

  lemma NewFits(k: int, node: RbNode, v: int)
    ensures Black(Leaf, k) ==> Black(Node(node, true, v, Leaf, Leaf), k)
  {
  }

  lemma NothingToRepair(path: seq<Frame>, q: Tree, k: int)
    requires AlmostRedBlack(path, q, k) && (|path| >= 2 ==> !path[|path| - 1].red)
    ensures RedBlack(path, q, k)
  {
  }

  // ---------------------------------------------------------------------------
  // Repairs on the path
  // ---------------------------------------------------------------------------

  ghost predicate NeedsRepair(path: seq<Frame>, q: Tree, k: int) {
    && |path| >= 3 && AlmostRedBlack(path, q, k)
    && path[|path| - 1].red && !IsRed(path[|path| - 2].sibling)
  }

  lemma RepairColours(path: seq<Frame>, q: Tree, k: int)
    requires NeedsRepair(path, q, k)
    ensures var g, p, above := path[|path| - 2], path[|path| - 1], path[..|path| - 2];
            && !g.red && Black(p.sibling, k) && Black(g.sibling, k) && Proper(p.sibling) && Proper(g.sibling)
            && !IsRed(p.sibling) && PathBlack(above, k + 1) && PathProper(above, false)
  {
    hide Black, Proper, PathBlack, PathProper;
    var above, g, p := path[..|path| - 2], path[|path| - 2], path[|path| - 1];
    assert path == above + [g] + [p];
    ColoursEnd(above + [g], p, k, false);
    ColoursEnd(above, g, k, true);
  }

  /** The subtree two levels up, and what it is turned into. */
  ghost function Top(path: seq<Frame>, q: Tree): (top: Tree)
    requires |path| >= 3
  {
    Fill(path[|path| - 2], Fill(path[|path| - 1], q))
  }

  ghost function Repaired(path: seq<Frame>, q: Tree): (r: Tree)
    requires |path| >= 3 && q.Node?
  {
    var g, p := path[|path| - 2], path[|path| - 1];
    if g.dir == p.dir then Rotated(Top(path, q), !g.dir) else RotatedTwice(Top(path, q), !g.dir)
  }

  lemma RepairFits(path: seq<Frame>, q: Tree, k: int)
    requires NeedsRepair(path, q, k)
    ensures RedBlack(path[..|path| - 2], Repaired(path, q), k + 1)
    ensures Repaired(path, q).Node? && Keys(Repaired(path, q)) == Keys(Top(path, q))
  {
    hide Black, Proper, PathBlack, PathProper, Keys, Rotated, RotatedTwice;
    var g, p := path[|path| - 2], path[|path| - 1];
    RepairColours(path, q, k);
    if g.dir == p.dir {
      SingleRepair(g, p, q, k);
      RotatedKeys(Top(path, q), !g.dir);
    } else {
      DoubleRepair(g, p, q, k);
      RotatedTwiceKeys(Top(path, q), !g.dir);
    }
  }

  lemma TopKeys(path: seq<Frame>, q: Tree)
    requires |path| >= 3
    ensures KeysAt(path[..|path| - 2], Top(path, q)) == KeysAt(path, q)
  {
    hide KeysAt;
    var above, g, p := path[..|path| - 2], path[|path| - 2], path[|path| - 1];
    assert path == above + [g] + [p];
    KeysUp(above + [g], p, q);
    KeysUp(above, g, Fill(p, q));
  }

  lemma TopAt(h: Heap, path: seq<Frame>, q: Tree)
    requires |path| >= 3
    ensures At(h, path, q) <==> At(h, path[..|path| - 2], Top(path, q))
  {
    hide At;
    var above, g, p := path[..|path| - 2], path[|path| - 2], path[|path| - 1];
    assert path == above + [g] + [p];
    Up(h, above + [g], p, q);
    Up(h, above, g, Fill(p, q));
  }

  // ---------------------------------------------------------------------------
  // One step down
  // ---------------------------------------------------------------------------

  ghost function Depth(q: Tree, v: int): (d: nat) {
    if q.Leaf? then 0 else if q.value == v then 1 else 1 + Depth(Child(q, q.value < v), v)
  }

  lemma StepDown(path: seq<Frame>, q: Tree, k: int, v: int)
    requires path != [] && RedBlack(path, q, k) && Route(path, v) && q.Node? && q.value != v
    ensures var dir := q.value < v;
            && RedBlack(path + [FrameOf(q, dir)], Child(q, dir), k - Shade(q.red))
            && Route(path + [FrameOf(q, dir)], v)
            && Depth(Child(q, dir), v) < Depth(q, v)
  {
    hide RedBlack;
    var dir := q.value < v;
    ColoursUp(path, FrameOf(q, dir), Child(q, dir), k - Shade(q.red));
    assert Fill(FrameOf(q, dir), Child(q, dir)) == q;
  }

  /** Nothing to change: stale pointers become right. */
  lemma PlainStep(stage: Stage, path: seq<Frame>, q: Tree, k: int, v: int)
    requires Ready(stage, path, q, k, v) && !Changes(q) && q.value != v
    ensures var dir := q.value < v;
            Ready(if stage == BothStale then TopStale else Fresh, path + [FrameOf(q, dir)], Child(q, dir),
                  k - Shade(q.red), v)
  {
    hide Black, PathBlack, PathProper, Route;
    StepDown(path, q, k, v);
  }

  lemma FlippedCalm(q: Tree)
    requires q.Node? && IsRed(q.left) && IsRed(q.right) && Proper(q)
    ensures Calm(Flipped(q).left) && Calm(Flipped(q).right)
  {
  }

  lemma FlipStep(stage: Stage, path: seq<Frame>, q: Tree, k: int, v: int)
    requires Ready(stage, path, q, k, v) && Changes(q) && q.Node? && q.value != v
    requires RedBlack(path, Flipped(q), k)
    ensures var r, dir := Flipped(q), q.value < v;
            && Ready(Fresh, path + [FrameOf(r, dir)], Child(r, dir), k, v)
            && Depth(Child(r, dir), v) < Depth(q, v)
  {
    hide Black, PathBlack, PathProper, Route, Proper;
    FlippedDepth(q, v);
    FlippedCalm(q);
    StepDown(path, Flipped(q), k, v);
  }

  lemma FlippedDepth(q: Tree, v: int)
    requires q.Node? && q.left.Node? && q.right.Node?
    ensures Depth(Flipped(q), v) == Depth(q, v)
  {
  }

  /** After a single rotation: the old parent is on top, the pointer above it is stale. */
  lemma SingleStep(path: seq<Frame>, q: Tree, k: int, v: int)
    requires NeedsRepair(path, q, k) && Route(path, v) && q.value != v
    requires path[|path| - 2].dir == path[|path| - 1].dir
    requires Calm(q.left) && Calm(q.right)
    ensures var above, g := path[..|path| - 2], path[|path| - 2];
            var r, dir := Repaired(path, q), q.value < v;
            && r.Node? && Child(r, g.dir) == q && r.ref == path[|path| - 1].ref
            && Ready(TopStale, above + [FrameOf(r, g.dir)] + [FrameOf(q, dir)], Child(q, dir), k, v)
            && Depth(Child(q, dir), v) < Depth(q, v)
  {
    hide Black, PathBlack, PathProper, Proper, Rotated, RedBlack;
    var above, g, p := path[..|path| - 2], path[|path| - 2], path[|path| - 1];
    var r := Repaired(path, q);
    RepairFits(path, q, k);
    RepairColours(path, q, k);
    SingleRepair(g, p, q, k);
    SingleRoot(g, p, q);
    ColoursUp(above, FrameOf(r, g.dir), q, k);
    assert Fill(FrameOf(r, g.dir), q) == r;
    StepDown(above + [FrameOf(r, g.dir)], q, k, v);
  }

  lemma SingleRoot(g: Frame, p: Frame, q: Tree)
    requires g.dir == p.dir
    ensures var top := Fill(g, Fill(p, q));
            Child(top, g.dir).Node? && Rotated(top, !g.dir).Node? && !Rotated(top, !g.dir).red &&
            Rotated(top, !g.dir).value == p.value
  {
  }

  /** After a double rotation: the node reached is on top, and the way leads through one of the other two. */
  lemma DoubleStep(path: seq<Frame>, q: Tree, k: int, v: int)
    requires NeedsRepair(path, q, k) && Route(path, v) && q.value != v
    requires path[|path| - 2].dir != path[|path| - 1].dir
    requires Calm(q.left) && Calm(q.right)
    ensures var above := path[..|path| - 2];
            var r, dir := Repaired(path, q), q.value < v;
            && r.Node? && r.ref == q.ref && r.value == q.value
            && Ready(BothStale, above + [FrameOf(r, dir)], Child(r, dir), k, v)
            && Depth(Child(r, dir), v) <= Depth(q, v)
  {
    hide Black, PathBlack, PathProper, Proper, RedBlack, RotatedTwice;
    var above, g, p := path[..|path| - 2], path[|path| - 2], path[|path| - 1];
    RepairFits(path, q, k);
    RepairColours(path, q, k);
    DoubleRepair(g, p, q, k);
    StepDown(above, Repaired(path, q), k + 1, v);
  }

  // ---------------------------------------------------------------------------
  // Keys
  // ---------------------------------------------------------------------------

  lemma {:induction false} RouteSplits(path: seq<Frame>, v: int)
    requires Route(path, v) && Ascending(Lefts(path)) && Ascending(Rights(path))
    ensures forall x :: x in Lefts(path) ==> x < v
    ensures forall x :: x in Rights(path) ==> v < x
  {
    if |path| > 1 {
      var f, rest := path[|path| - 1], path[..|path| - 1];
      assert f == path[|path| - 1] && Route(rest, v);
      var l, r := Lefts(path), Rights(path);
      if f.dir {
        assert l[|l| - 1] == f.value;
        assert Ascending(Lefts(rest)) by {
          assert forall i :: 0 <= i < |Lefts(rest)| ==> Lefts(rest)[i] == l[i];
        }
      } else {
        assert r[0] == f.value;
        var d := 1 + |Keys(f.sibling)|;
        assert Ascending(Rights(rest)) by {
          assert forall i :: 0 <= i < |Rights(rest)| ==> Rights(rest)[i] == r[d + i];
        }
      }
      RouteSplits(rest, v);
    }
  }

  lemma AscendingParts(a: seq<int>, b: seq<int>, c: seq<int>)
    requires Ascending(a + b + c)
    ensures Ascending(a) && Ascending(b) && Ascending(c)
  {
    var s := a + b + c;
    assert forall i :: 0 <= i < |a| ==> a[i] == s[i];
    assert forall i :: 0 <= i < |b| ==> b[i] == s[|a| + i];
    assert forall i :: 0 <= i < |c| ==> c[i] == s[|a| + |b| + i];
  }

  /** At a null link the value is new, and it goes where it belongs. */
  lemma NewKey(path: seq<Frame>, node: RbNode, v: int)
    requires Route(path, v) && Ascending(KeysAt(path, Leaf))
    ensures v !in KeysAt(path, Leaf)
    ensures Ascending(KeysAt(path, Node(node, true, v, Leaf, Leaf)))
    ensures multiset(KeysAt(path, Node(node, true, v, Leaf, Leaf))) == multiset(KeysAt(path, Leaf)) + multiset{v}
  {
    hide Route, Lefts, Rights, Ascending;
    var l, r := Lefts(path), Rights(path);
    AscendingParts(l, [], r);
    RouteSplits(path, v);
    assert Keys(Node(node, true, v, Leaf, Leaf)) == [v];
    assert KeysAt(path, Leaf) == l + r;
    AscendingInsert(l, r, v);
  }

  lemma AscendingInsert(l: seq<int>, r: seq<int>, v: int)
    requires Ascending(l + r) && (forall x :: x in l ==> x < v) && (forall x :: x in r ==> v < x)
    ensures Ascending(l + [v] + r)
  {
    var s := l + [v] + r;
    AscendingParts(l, [], r);
    assert l + [] + r == l + r;
    forall i, j | 0 <= i < j < |s|
      ensures s[i] < s[j]
    {
      if i < |l| {
        assert s[i] == l[i] && l[i] in l;
      }
      if j > |l| {
        assert s[j] == r[j - |l| - 1] && r[j - |l| - 1] in r;
      }
    }
  }

  lemma OldKey(path: seq<Frame>, q: Tree)
    requires q.Node?
    ensures q.value in KeysAt(path, q)
  {
    var a, b, c := Lefts(path), Keys(q), Rights(path);
    assert b[|Keys(q.left)|] == q.value;
    assert (a + b + c)[|a| + |Keys(q.left)|] == q.value;
  }

  /** Back to the top of the tree. */
  lemma {:induction false} Climb(h: Heap, path: seq<Frame>, q: Tree, k: int) returns (t: Tree, n: int)
    requires path != [] && At(h, path, q) && RedBlack(path, q, k)
    ensures At(h, [path[0]], t) && RedBlack([path[0]], t, n) && KeysAt([path[0]], t) == KeysAt(path, q)
    ensures PathRefs([path[0]]) + Refs(t) == PathRefs(path) + Refs(q)
    ensures q.Node? ==> t.Node?
  {
    hide At, RedBlack, KeysAt;
    if |path| == 1 {
      assert path == [path[0]];
      t, n := q, k;
    } else {
      var f, rest := path[|path| - 1], path[..|path| - 1];
      assert path == rest + [f];
      Up(h, rest, f, q);
      ColoursUp(rest, f, q, k);
      KeysUp(rest, f, q);
      RefsUp(rest, f, q);
      t, n := Climb(h, rest, Fill(f, q), k + Shade(f.red));
    }
  }

  lemma RefsUp(path: seq<Frame>, f: Frame, q: Tree)
    ensures PathRefs(path + [f]) + Refs(q) == PathRefs(path) + Refs(Fill(f, q))
  {
    PathEnd(map[], path, f, null);
    FilledHolds(map[], f, q);
  }

  // ---------------------------------------------------------------------------
  // Changes in memory
  // ---------------------------------------------------------------------------

  lemma NewNodeAt(h: Heap, path: seq<Frame>, f: Frame, node: RbNode, v: int)
    requires At(h, path + [f], Leaf) && node in h && h[node] == Cell(true, null, null, v)
    requires node !in PathRefs(path + [f])
    ensures f.ref in h
    ensures At(h[f.ref := WithLink(h[f.ref], f.dir, node)], path + [f], Node(node, true, v, Leaf, Leaf))
  {
    hide Holds, HoldsPath, Refs, PathRefs, Unique;
    var t := Node(node, true, v, Leaf, Leaf);
    PathEnd(h, path, f, null);
    OffPath(path, f, Leaf);
    var h2 := h[f.ref := WithLink(h[f.ref], f.dir, node)];
    PathElsewhere(h, h2, path, f.ref);
    HoldsElsewhere(h, h2, f.sibling);
    PathEnd(h2, path, f, node);
    LoneHolds(h2, node, v, PathRefs(path + [f]));
  }

  lemma LoneHolds(h: Heap, node: RbNode, v: int, m: multiset<RbNode>)
    requires node in h && h[node] == Cell(true, null, null, v) && node !in m && Unique(m + Refs(Leaf))
    ensures var t := Node(node, true, v, Leaf, Leaf); Holds(h, t) && Unique(m + Refs(t))
  {
    assert Refs(Node(node, true, v, Leaf, Leaf)) == multiset{node};
    assert m + Refs(Leaf) == m;
  }

  /** The colour flip in memory: `x` is the node, `y` and `z` its children. */
  ghost function FlippedCells(h: Heap, x: RbNode, y: RbNode, z: RbNode): (r: Heap)
    requires x in h && y in h && z in h
  {
    var h1 := h[x := h[x].(red := true)];
    var h2 := h1[y := h1[y].(red := false)];
    h2[z := h2[z].(red := false)]
  }

  lemma FlippedMemory(h: Heap, x: RbNode, y: RbNode, z: RbNode)
    requires x in h && y in h && z in h && x != y && x != z && y != z
    ensures var h' := FlippedCells(h, x, y, z);
            && h'.Keys == h.Keys
            && h'[x] == h[x].(red := true) && h'[y] == h[y].(red := false) && h'[z] == h[z].(red := false)
            && forall w :: w in h && w != x && w != y && w != z ==> h'[w] == h[w]
  {
  }

  lemma FlippedHolds(h: Heap, q: Tree)
    requires q.Node? && q.left.Node? && q.right.Node? && Holds(h, q) && Unique(Refs(q))
    ensures q.ref in h && q.left.ref in h && q.right.ref in h
    ensures var h' := FlippedCells(h, q.ref, q.left.ref, q.right.ref);
            && Holds(h', Flipped(q)) && Refs(Flipped(q)) == Refs(q) && h'.Keys == h.Keys
            && forall w :: w in h && w !in Refs(q) ==> h'[w] == h[w]
  {
    hide Unique, Holds, Refs, FlippedCells;
    var l, r := q.left, q.right;
    HoldsNode(h, q);
    HoldsNode(h, l);
    HoldsNode(h, r);
    ThreeApart(q.ref, l.ref, r.ref, Refs(l.left), Refs(l.right), Refs(r.left), Refs(r.right), Refs(q));
    FlippedMemory(h, q.ref, l.ref, r.ref);
    var h', q' := FlippedCells(h, q.ref, l.ref, r.ref), Flipped(q);
    HoldsElsewhere(h, h', l.left);
    HoldsElsewhere(h, h', l.right);
    HoldsElsewhere(h, h', r.left);
    HoldsElsewhere(h, h', r.right);
    HoldsNode(h', q'.left);
    HoldsNode(h', q'.right);
    HoldsNode(h', q');
  }

  lemma HoldsNode(h: Heap, t: Tree)
    requires t.Node?
    ensures Holds(h, t) <==>
            && t.ref in h && h[t.ref] == Cell(t.red, RefOf(t.left), RefOf(t.right), t.value)
            && Holds(h, t.left) && Holds(h, t.right)
    ensures Refs(t) == multiset{t.ref} + Refs(t.left) + Refs(t.right)
  {
  }

  lemma ThreeApart(x: RbNode, y: RbNode, z: RbNode, a: multiset<RbNode>, b: multiset<RbNode>, c: multiset<RbNode>,
                   d: multiset<RbNode>, all: multiset<RbNode>)
    requires all == multiset{x} + (multiset{y} + a + b) + (multiset{z} + c + d) && Unique(all)
    ensures x != y && x != z && y != z
    ensures forall w :: w in a || w in b || w in c || w in d ==> w != x && w != y && w != z
  {
    UniqueSplit(multiset{x}, multiset{y} + a + b + (multiset{z} + c + d));
    assert all == multiset{x} + (multiset{y} + a + b + (multiset{z} + c + d));
    UniqueSplit(multiset{y}, multiset{x} + a + b + (multiset{z} + c + d));
    assert all == multiset{y} + (multiset{x} + a + b + (multiset{z} + c + d));
    UniqueSplit(multiset{z}, multiset{x} + (multiset{y} + a + b) + c + d);
    assert all == multiset{z} + (multiset{x} + (multiset{y} + a + b) + c + d);
  }

  /** Only nodes of `m` have changed. */
  ghost predicate OnlyIn(h: Heap, h': Heap, m: multiset<RbNode>) {
    h'.Keys == h.Keys && forall z :: z in h && z !in m ==> h'[z] == h[z]
  }

  lemma InPlace(h: Heap, h': Heap, path: seq<Frame>, q: Tree, q': Tree)
    requires At(h, path, q) && Holds(h', q') && Refs(q') == Refs(q) && RefOf(q') == RefOf(q) && OnlyIn(h, h', Refs(q))
    ensures At(h', path, q')
  {
    hide Holds, HoldsPath, Refs, PathRefs, Unique;
    UniqueSplit(PathRefs(path), Refs(q));
    PathElsewhere(h, h', path, RefOf(q));
  }

  // ---------------------------------------------------------------------------
  // The pass
  // ---------------------------------------------------------------------------

  method FlipColours(q: RbNode, ghost U: set<RbNode>, ghost path: seq<Frame>, ghost Q: Tree)
    requires At(Snap(U), path, Q) && Q.Node? && Q.ref == q && Q.left.Node? && Q.right.Node?
    modifies U
    ensures At(Snap(U), path, Flipped(Q)) && OnlyIn(old(Snap(U)), Snap(U), Refs(Q)) && Refs(Flipped(Q)) == Refs(Q)
  {
    hide At, Holds, Refs, Unique;
    ghost var h := Snap(U);
    AtMeans(h, path, Q);
    FlippedHolds(h, Q);
    HoldsNode(h, Q);
    SetRed(q, true, U);
    SetRed(q.left, false, U);
    SetRed(q.right, false, U);
    assert Snap(U) == FlippedCells(h, q, Q.left.ref, Q.right.ref);
    InPlace(h, Snap(U), path, Q, Flipped(Q));
  }

  method RepairRed(t: RbNode, g: RbNode, p: RbNode, q: RbNode, last: bool,
                   ghost U: set<RbNode>, ghost path: seq<Frame>, ghost Q: Tree)
    requires |path| >= 3 && At(Snap(U), path, Q) && Q.Node? && Q.ref == q
    requires p == path[|path| - 1].ref && g == path[|path| - 2].ref && t == path[|path| - 3].ref
    requires last == path[|path| - 2].dir
    modifies U
    ensures At(Snap(U), path[..|path| - 2], Repaired(path, Q))
    ensures OnlyIn(old(Snap(U)), Snap(U), PathRefs(path) + Refs(Q))
    ensures PathRefs(path[..|path| - 2]) + Refs(Repaired(path, Q)) == PathRefs(path) + Refs(Q)
  {
    hide At, Holds, HoldsPath, Refs, PathRefs, Unique, Rotated, RotatedTwice, RotatedCells, RotatesTwice;
    ghost var h, above, top := Snap(U), path[..|path| - 2], Top(path, Q);
    ghost var f := path[|path| - 3];
    assert above == above[..|above| - 1] + [f];
    TopAt(h, path, Q);
    TopRefs(path, Q);
    AtMeans(h, above, top);
    WhichLinks(h, path, Q);
    var dir2 := t.right == g;
    if q == Link(p, last) {
      RotatedHolds(h, top, !last);
      var r := Rotate(g, !last, U);
      RotatedRoot(top, !last);
      Relink(h, Snap(U), above[..|above| - 1], f, top, Rotated(top, !last));
      SetLink(t, dir2, r, U);
    } else {
      var r := Rotate2(g, !last, U, top);
      RotatedTwiceHolds(h, top, !last, Snap(U));
      RotatedTwiceRoot(top, !last);
      Relink(h, Snap(U), above[..|above| - 1], f, top, RotatedTwice(top, !last));
      SetLink(t, dir2, r, U);
    }
  }

  lemma RotatedTwiceRoot(t: Tree, dir: bool)
    requires t.Node? && Child(t, !dir).Node? && Child(Child(t, !dir), dir).Node?
    ensures RotatedTwice(t, dir).Node? && RotatedTwice(t, dir).ref == Child(Child(t, !dir), dir).ref
  {
  }

  lemma TopRefs(path: seq<Frame>, q: Tree)
    requires |path| >= 3
    ensures PathRefs(path[..|path| - 2]) + Refs(Top(path, q)) == PathRefs(path) + Refs(q)
    ensures path[|path| - 3].ref in PathRefs(path[..|path| - 2])
  {
    hide Refs, PathRefs;
    var above, g, p := path[..|path| - 2], path[|path| - 2], path[|path| - 1];
    assert path == above + [g] + [p];
    RefsUp(above + [g], p, q);
    RefsUp(above, g, Fill(p, q));
    assert above == above[..|above| - 1] + [path[|path| - 3]];
    PathEnd(map[], above[..|above| - 1], path[|path| - 3], null);
  }

  /** The tests of the source find the directions of the path, since no node has two parents. */
  lemma WhichLinks(h: Heap, path: seq<Frame>, q: Tree)
    requires |path| >= 3 && At(h, path, q) && q.Node?
    ensures var t, g, p, top := path[|path| - 3], path[|path| - 2], path[|path| - 1], Top(path, q);
            && t.ref in h && p.ref in h && g.ref in h && t.ref != g.ref
            && (h[t.ref].right == g.ref <==> t.dir)
            && (LinkOf(h[p.ref], g.dir) == q.ref <==> g.dir == p.dir)
            && LinkOf(h[g.ref], g.dir) == p.ref && p.ref != g.ref
            && top.Node? && top.ref == g.ref && Child(top, g.dir).Node? && Child(top, g.dir).ref == p.ref
            && (g.dir != p.dir ==> Child(Child(top, g.dir), !g.dir) == q)
  {
    hide Holds, HoldsPath, Refs, PathRefs, Unique, At;
    var above, t, g, p := path[..|path| - 3], path[|path| - 3], path[|path| - 2], path[|path| - 1];
    assert path == above + [t] + [g] + [p];
    Parent(h, above + [t] + [g], p, q);
    Up(h, above + [t] + [g], p, q);
    Parent(h, above + [t], g, Fill(p, q));
    Up(h, above + [t], g, Fill(p, q));
    Parent(h, above, t, Fill(g, Fill(p, q)));
  }

  lemma Parent(h: Heap, path: seq<Frame>, f: Frame, q: Tree)
    requires At(h, path + [f], q) && q.Node?
    ensures f.ref in h && f.ref != q.ref && q.ref in h
    ensures LinkOf(h[f.ref], f.dir) == q.ref && LinkOf(h[f.ref], !f.dir) != q.ref
  {
    hide HoldsPath, PathRefs, Unique, Refs, Holds;
    AtMeans(h, path + [f], q);
    PathEnd(h, path, f, q.ref);
    HoldsNode(h, q);
    OffPath(path, f, q);
    RootIn(f.sibling);
  }

  lemma RootIn(t: Tree)
    ensures t.Node? ==> t.ref in Refs(t)
  {
  }

  /** Where the pass is, with the variables of the source. */
  datatype Spot = Spot(stage: Stage, path: seq<Frame>, q: Tree, k: int, t: RbNode, g: RbNode?, p: RbNode?, last: bool,
                       dir: bool)

  ghost predicate InPass(h: Heap, s: Spot, v: int, keys: seq<int>, all: multiset<RbNode>) {
    && Ready(s.stage, s.path, s.q, s.k, v) && Pointers(s.stage, s.path, s.t, s.g, s.p)
    && Fits(h, s.path, s.q, s.k, keys, all)
    && (|s.path| == 1 ==> s.q.Node?)
    && (|s.path| >= 2 ==> s.dir == s.path[|s.path| - 1].dir)
    && (|s.path| >= 3 && s.stage != BothStale ==> s.last == s.path[|s.path| - 2].dir)
  }

  /** The tree is in memory, is a red-black tree, and has these keys and nodes. */
  ghost predicate Fits(h: Heap, path: seq<Frame>, q: Tree, k: int, keys: seq<int>, all: multiset<RbNode>) {
    && path != [] && At(h, path, q) && RedBlack(path, q, k)
    && KeysAt(path, q) == keys && PathRefs(path) + Refs(q) == all
  }

  /** The assignments at the end of the loop body, for a node `q` with these links. */
  ghost function Moved(s: Spot, stage: Stage, path: seq<Frame>, q: Tree, k: int, v: int): (r: Spot)
    requires q.Node?
  {
    var dir := q.value < v;
    Spot(stage, path + [FrameOf(q, dir)], Child(q, dir), k, if s.g != null then s.g else s.t, s.p, q.ref, s.dir, dir)
  }

  lemma FitsBelow(h: Heap, path: seq<Frame>, q: Tree, k: int, keys: seq<int>, all: multiset<RbNode>, dir: bool)
    requires Fits(h, path, q, k, keys, all) && q.Node?
    ensures Fits(h, path + [FrameOf(q, dir)], Child(q, dir), k - Shade(q.red), keys, all)
  {
    hide At, RedBlack, KeysAt, Refs, PathRefs, Fill, FrameOf, Child;
    var f, c := FrameOf(q, dir), Child(q, dir);
    FilledAgain(q, dir);
    Up(h, path, f, c);
    ColoursUp(path, f, c, k - Shade(q.red));
    KeysUp(path, f, c);
    RefsUp(path, f, c);
  }

  lemma FilledAgain(q: Tree, dir: bool)
    requires q.Node?
    ensures Fill(FrameOf(q, dir), Child(q, dir)) == q && FrameOf(q, dir).red == q.red
  {
  }

  lemma MovePlain(h: Heap, s: Spot, v: int, keys: seq<int>, all: multiset<RbNode>)
    requires InPass(h, s, v, keys, all) && !Changes(s.q) && s.q.value != v
    ensures var r := Moved(s, if s.stage == BothStale then TopStale else Fresh, s.path, s.q, s.k - Shade(s.q.red), v);
            InPass(h, r, v, keys, all) && Depth(r.q, v) < Depth(s.q, v)
  {
    hide Fits, RedBlack, Route, Settled, Ready;
    PlainStep(s.stage, s.path, s.q, s.k, v);
    FitsBelow(h, s.path, s.q, s.k, keys, all, s.q.value < v);
    ReadyMeans(s.stage, s.path, s.q, s.k, v);
    StepDown(s.path, s.q, s.k, v);
  }

  lemma ReadyMeans(stage: Stage, path: seq<Frame>, q: Tree, k: int, v: int)
    requires Ready(stage, path, q, k, v)
    ensures path != [] && RedBlack(path, q, k) && Settled(stage, path, q, v) && Route(path, v) && Proper(q)
  {
  }

  lemma MoveFlipped(h0: Heap, h: Heap, s: Spot, v: int, keys: seq<int>, all: multiset<RbNode>)
    requires InPass(h0, s, v, keys, all) && Changes(s.q) && s.q.Node? && s.q.value != v && s.stage == Fresh
    requires Fits(h, s.path, Flipped(s.q), s.k, keys, all)
    ensures var r := Moved(s, Fresh, s.path, Flipped(s.q), s.k, v);
            InPass(h, r, v, keys, all) && Depth(r.q, v) < Depth(s.q, v)
  {
    hide Fits, RedBlack, Route, Settled, Ready;
    FitsMeans(h, s.path, Flipped(s.q), s.k, keys, all);
    FlipStep(s.stage, s.path, s.q, s.k, v);
    FitsBelow(h, s.path, Flipped(s.q), s.k, keys, all, s.q.value < v);
  }

  lemma FitsMeans(h: Heap, path: seq<Frame>, q: Tree, k: int, keys: seq<int>, all: multiset<RbNode>)
    requires Fits(h, path, q, k, keys, all)
    ensures path != [] && At(h, path, q) && RedBlack(path, q, k) && KeysAt(path, q) == keys
  {
  }

  /** After the repair: where the node reached is found again. */
  ghost function RepairedPath(path: seq<Frame>, q: Tree): (r: seq<Frame>)
    requires |path| >= 3 && q.Node? && Repaired(path, q).Node?
  {
    var above, g := path[..|path| - 2], path[|path| - 2];
    if g.dir == path[|path| - 1].dir then above + [FrameOf(Repaired(path, q), g.dir)] else above
  }

  ghost function RepairedFocus(path: seq<Frame>, q: Tree): (r: Tree)
    requires |path| >= 3 && q.Node? && Repaired(path, q).Node?
  {
    var g := path[|path| - 2];
    if g.dir == path[|path| - 1].dir then Child(Repaired(path, q), g.dir) else Repaired(path, q)
  }

  ghost function RepairedHeight(path: seq<Frame>, k: int): (r: int)
    requires |path| >= 3
  {
    if path[|path| - 2].dir == path[|path| - 1].dir then k else k + 1
  }

  lemma RepairedFits(h: Heap, path: seq<Frame>, q: Tree, k: int, keys: seq<int>, all: multiset<RbNode>)
    requires NeedsRepair(path, q, k) && KeysAt(path, q) == keys
    requires At(h, path[..|path| - 2], Repaired(path, q))
    requires PathRefs(path[..|path| - 2]) + Refs(Repaired(path, q)) == all
    ensures Repaired(path, q).Node?
    ensures Fits(h, RepairedPath(path, q), RepairedFocus(path, q), RepairedHeight(path, k), keys, all)
    ensures var r := RepairedFocus(path, q); r.Node? && r.ref == q.ref && r.value == q.value
  {
    hide At, RedBlack, KeysAt, Rotated, RotatedTwice, Keys, Black, Proper, PathBlack, PathProper;
    var above, g, p := path[..|path| - 2], path[|path| - 2], path[|path| - 1];
    var r := Repaired(path, q);
    RepairFits(path, q, k);
    TopKeys(path, q);
    SameKeysAt(above, Top(path, q), r);
    RepairColours(path, q, k);
    if g.dir == p.dir {
      SingleRepair(g, p, q, k);
      FitsBelow(h, above, r, k + 1, keys, all, g.dir);
    } else {
      DoubleRepair(g, p, q, k);
    }
  }

  lemma SameKeysAt(path: seq<Frame>, q: Tree, r: Tree)
    requires Keys(q) == Keys(r)
    ensures KeysAt(path, q) == KeysAt(path, r)
  {
  }

  lemma MoveRepaired(h0: Heap, h: Heap, s: Spot, v: int, keys: seq<int>, all: multiset<RbNode>)
    requires InPass(h0, s, v, keys, all) && Changes(s.q) && s.q.Node? && s.q.value != v
    requires NeedsRepair(s.path, Flipped(s.q), s.k) && Repaired(s.path, Flipped(s.q)).Node?
    requires s.stage == Fresh && s.p != null && s.g != null
    requires Fits(h, RepairedPath(s.path, Flipped(s.q)), RepairedFocus(s.path, Flipped(s.q)),
                  RepairedHeight(s.path, s.k), keys, all)
    requires RepairedFocus(s.path, Flipped(s.q)).Node?
    ensures var single := s.path[|s.path| - 2].dir == s.path[|s.path| - 1].dir;
            var r := Moved(s, if single then TopStale else BothStale, RepairedPath(s.path, Flipped(s.q)),
                           RepairedFocus(s.path, Flipped(s.q)), s.k, v);
            && InPass(h, r, v, keys, all)
            && (if single then Depth(r.q, v) < Depth(s.q, v) else Depth(r.q, v) <= Depth(s.q, v))
  {
    hide Fits, RedBlack, Settled, Rotated, RotatedTwice, Proper, Repaired;
    var q := Flipped(s.q);
    ReadyMeans(s.stage, s.path, s.q, s.k, v);
    FlippedCalm(s.q);
    FlippedDepth(s.q, v);
    var focus := RepairedFocus(s.path, q);
    FitsBelow(h, RepairedPath(s.path, q), focus, RepairedHeight(s.path, s.k), keys, all, focus.value < v);
    if s.path[|s.path| - 2].dir == s.path[|s.path| - 1].dir {
      SingleStep(s.path, q, s.k, v);
    } else {
      DoubleStep(s.path, q, s.k, v);
      DoubleBlack(s.path, q, s.k);
    }
  }

  lemma DoubleBlack(path: seq<Frame>, q: Tree, k: int)
    requires NeedsRepair(path, q, k) && path[|path| - 2].dir != path[|path| - 1].dir
    ensures Repaired(path, q).Node? && !Repaired(path, q).red
  {
    hide Black, Proper, PathBlack, PathProper;
    RepairColours(path, q, k);
    DoubleRepair(path[|path| - 2], path[|path| - 1], q, k);
  }

  /** The first part of the loop body: a new node at a null link, or a colour flip. */
  method ChangeAt(p: RbNode?, q: RbNode?, dir: bool, node: RbNode, ghost U: set<RbNode>, ghost path: seq<Frame>,
                  ghost Q: Tree)
    returns (r: RbNode, ghost Q1: Tree)
    requires path != [] && At(Snap(U), path, Q) && q == RefOf(Q) && node in U
    requires Q.Leaf? ==> |path| >= 2 && p == path[|path| - 1].ref && dir == path[|path| - 1].dir
    requires Snap(U)[node] == Cell(true, null, null, node.value) && node !in PathRefs(path) + Refs(Q)
    modifies U
    ensures r == RefOf(Q1) && At(Snap(U), path, Q1) && node.value == old(node.value)
    ensures Q1 == (if Changes(Q) then Changed(Q, node, node.value) else Q) && (!Changes(Q) ==> Snap(U) == old(Snap(U)))
    ensures OnlyIn(old(Snap(U)), Snap(U), PathRefs(path) + Refs(Q))
    ensures PathRefs(path) + Refs(Q1) == PathRefs(path) + Refs(Q) + if Q.Leaf? then multiset{node} else multiset{}
  {
    hide At, Holds, HoldsPath, Refs, PathRefs, Unique, OnlyIn, Flipped;
    ghost var h := Snap(U);
    if q == null {
      LinkNew(p, dir, node, U, path);
      r, Q1 := node, Node(node, true, node.value, Leaf, Leaf);
    } else {
      AtMeans(h, path, Q);
      ChildColours(h, Q);
      FlippedRoot(Q);
      r, Q1 := q, Q;
      if IsRedNode(q.left) && IsRedNode(q.right) {
        FlipColours(q, U, path, Q);
        Q1 := Flipped(Q);
        WiderOnly(h, Snap(U), Refs(Q), PathRefs(path), node);
      } else {
        NothingChanged(h, PathRefs(path) + Refs(Q));
      }
    }
  }

  method LinkNew(p: RbNode, dir: bool, node: RbNode, ghost U: set<RbNode>, ghost path: seq<Frame>)
    requires |path| >= 2 && p == path[|path| - 1].ref && dir == path[|path| - 1].dir
    requires At(Snap(U), path, Leaf) && node in U && node !in PathRefs(path) + Refs(Leaf)
    requires Snap(U)[node] == Cell(true, null, null, node.value)
    modifies U
    ensures At(Snap(U), path, Node(node, true, node.value, Leaf, Leaf)) && node.value == old(node.value)
    ensures OnlyIn(old(Snap(U)), Snap(U), PathRefs(path) + Refs(Leaf))
    ensures PathRefs(path) + Refs(Node(node, true, node.value, Leaf, Leaf)) ==
            PathRefs(path) + Refs(Leaf) + multiset{node}
  {
    hide At, Holds, HoldsPath, Refs, PathRefs, Unique;
    ghost var h, above, f := Snap(U), path[..|path| - 1], path[|path| - 1];
    assert path == above + [f];
    PathEnd(h, above, f, null);
    NoRefs();
    NewNodeAt(h, above, f, node, node.value);
    HoldsNode(h, Node(node, true, node.value, Leaf, Leaf));
    SetLink(p, dir, node, U);
  }

  lemma ChildColours(h: Heap, q: Tree)
    requires q.Node? && Holds(h, q)
    ensures q.ref in h && h[q.ref].red == q.red && h[q.ref].value == q.value
    ensures h[q.ref].left == RefOf(q.left) && h[q.ref].right == RefOf(q.right)
    ensures q.left.Node? ==> q.left.ref in h && h[q.left.ref].red == q.left.red
    ensures q.right.Node? ==> q.right.ref in h && h[q.right.ref].red == q.right.red
  {
  }

  lemma FlippedRoot(q: Tree)
    requires q.Node?
    ensures q.left.Node? && q.right.Node? ==> Flipped(q).Node? && Flipped(q).ref == q.ref && Flipped(q).value == q.value
  {
  }

  lemma WiderOnly(h: Heap, h': Heap, m: multiset<RbNode>, more: multiset<RbNode>, node: RbNode)
    requires OnlyIn(h, h', m) && node in h && node !in more + m
    ensures OnlyIn(h, h', more + m) && node in h' && h'[node] == h[node]
  {
  }

  lemma NothingChanged(h: Heap, m: multiset<RbNode>)
    ensures OnlyIn(h, h, m)
  {
  }

  lemma NoRefs()
    ensures Refs(Leaf) == multiset{}
  {
  }

  lemma ParentColour(h: Heap, path: seq<Frame>, q: Tree)
    requires |path| >= 2 && At(h, path, q)
    ensures var f := path[|path| - 1]; f.ref in h && h[f.ref].red == f.red
  {
    var f := path[|path| - 1];
    assert path == path[..|path| - 1] + [f];
    PathEnd(h, path[..|path| - 1], f, RefOf(q));
  }

  lemma NotBothRed(path: seq<Frame>, q: Tree, k: int)
    requires RedBlack(path, q, k)
    ensures |path| >= 2 && path[|path| - 1].red ==> !IsRed(q)
  {
  }

  /** What follows the change: nothing to do, or a repair that is possible. */
  lemma AfterChange(stage: Stage, path: seq<Frame>, q: Tree, k: int, v: int, node: RbNode, q1: Tree)
    requires Ready(stage, path, q, k, v) && q1 == if Changes(q) then Changed(q, node, v) else q
    ensures if BothRed(path, q1) then NeedsRepair(path, q1, k) && stage == Fresh && Changes(q)
            else RedBlack(path, q1, k)
    ensures Changes(q) ==> stage == Fresh
    ensures q1.Node?
  {
    hide Black, Proper, PathBlack, PathProper, Settled;
    if Changes(q) {
      ChangeFits(stage, path, q, k, v, node);
      if |path| >= 2 ==> !path[|path| - 1].red {
        NothingToRepair(path, q1, k);
      }
    } else {
      NotBothRed(path, q, k);
    }
  }

  lemma ChangedKeys(path: seq<Frame>, q: Tree, node: RbNode, v: int, k: int)
    requires Changes(q) && Route(path, v) && Ascending(KeysAt(path, q)) && Black(q, k) && Proper(q)
    ensures var keys := KeysAt(path, Changed(q, node, v));
            if q.Leaf? then
              v !in KeysAt(path, q) && Ascending(keys) && multiset(keys) == multiset(KeysAt(path, q)) + multiset{v}
            else keys == KeysAt(path, q)
  {
    hide Route, Lefts, Rights, Keys, Ascending;
    if q.Leaf? {
      NewKey(path, node, v);
    } else {
      FlippedFits(q, k);
      SameKeysAt(path, q, Flipped(q));
    }
  }

  function HeadFrame(head: RbNode, value: int): (f: Frame) {
    Frame(head, false, value, true, Leaf)
  }

  /** What an insertion makes of the keys and the nodes. */
  ghost predicate Outcome(keys: seq<int>, all: multiset<RbNode>, keys': seq<int>, all': multiset<RbNode>, node: RbNode,
                          v: int)
  {
    if v in keys then keys' == keys && all' == all
    else Ascending(keys') && multiset(keys') == multiset(keys) + multiset{v} && all' == all + multiset{node}
  }

  ghost predicate BothRed(path: seq<Frame>, q: Tree) {
    IsRed(q) && |path| >= 2 && path[|path| - 1].red
  }

  ghost predicate RepairResult(path: seq<Frame>, k: int, q: Tree, path': seq<Frame>, q': Tree, k': int) {
    if BothRed(path, q) then
      && |path| >= 3 && Repaired(path, q).Node?
      && path' == RepairedPath(path, q) && q' == RepairedFocus(path, q) && k' == RepairedHeight(path, k)
    else path' == path && q' == q && k' == k
  }

  /** The second part of the loop body: the rotation, if the node and its parent are both red. */
  method RepairAt(t: RbNode, g: RbNode?, p: RbNode?, q: RbNode, last: bool, node: RbNode,
                  ghost U: set<RbNode>, ghost s: Spot, ghost Q1: Tree, ghost keys: seq<int>,
                  ghost all: multiset<RbNode>)
    returns (ghost path: seq<Frame>, ghost Q2: Tree, ghost k: int)
    requires s.path != [] && At(Snap(U), s.path, Q1) && Q1.Node? && q == Q1.ref && node in U
    requires Pointers(s.stage, s.path, s.t, s.g, s.p) && t == s.t && g == s.g && p == s.p && last == s.last
    requires |s.path| >= 3 && s.stage != BothStale ==> s.last == s.path[|s.path| - 2].dir
    requires KeysAt(s.path, Q1) == keys && PathRefs(s.path) + Refs(Q1) == all
    requires if BothRed(s.path, Q1) then NeedsRepair(s.path, Q1, s.k) && s.stage == Fresh else RedBlack(s.path, Q1, s.k)
    modifies U
    ensures Fits(Snap(U), path, Q2, k, keys, all) && Q2.Node? && Q2.ref == q && Q2.value == Q1.value
    ensures OnlyIn(old(Snap(U)), Snap(U), all)
    ensures RepairResult(s.path, s.k, Q1, path, Q2, k) && (!BothRed(s.path, Q1) ==> Snap(U) == old(Snap(U)))
  {
    hide At, RedBlack, KeysAt, NeedsRepair, Repaired, RepairedPath, RepairedFocus, Refs, PathRefs, Holds;
    ghost var h := Snap(U);
    AtMeans(h, s.path, Q1);
    ChildColours(h, Q1);
    if |s.path| >= 2 {
      ParentColour(h, s.path, Q1);
    }
    if IsRedNode(q) && IsRedNode(p) {
      LongEnough(s.path, Q1, s.k);
      RepairRed(t, g, p, q, last, U, s.path, Q1);
      RepairedFits(Snap(U), s.path, Q1, s.k, keys, all);
      path, Q2, k := RepairedPath(s.path, Q1), RepairedFocus(s.path, Q1), RepairedHeight(s.path, s.k);
    } else {
      path, Q2, k := s.path, Q1, s.k;
    }
  }

  lemma LongEnough(path: seq<Frame>, q: Tree, k: int)
    requires NeedsRepair(path, q, k)
    ensures |path| >= 3
  {
  }

  /** What one turn of the loop hands to the next. */
  ghost predicate MovesTo(h: Heap, s: Spot, r: Spot, q: Tree, v: int, keys: seq<int>, all: multiset<RbNode>, f: Frame) {
    && InPass(h, r, v, keys, all) && FirstIs(r.path, f)
    && q.Node? && r.q == Child(q, q.value < v) && r.t == (if s.g != null then s.g else s.t) && r.g == s.p &&
       r.p == q.ref
    && r.last == s.dir && r.dir == (q.value < v)
    && (Depth(r.q, v) < Depth(s.q, v) ||
        (Depth(r.q, v) == Depth(s.q, v) && r.stage == BothStale && s.stage != BothStale))
  }

  /** The loop body up to the comparison. */
  method Turn(t: RbNode, g: RbNode?, p: RbNode?, q: RbNode?, last: bool, dir: bool, node: RbNode, ghost U: set<RbNode>,
              ghost s: Spot, ghost keys: seq<int>, ghost all: multiset<RbNode>, ghost f: Frame)
    returns (q': RbNode, ghost path: seq<Frame>, ghost Q2: Tree, ghost k: int, ghost keys1: seq<int>,
             ghost all1: multiset<RbNode>, ghost r: Spot)
    requires InPass(Snap(U), s, node.value, keys, all) && FirstIs(s.path, f) && Ascending(keys)
    requires q == RefOf(s.q) && t == s.t && g == s.g && p == s.p && last == s.last && dir == s.dir
    requires node in U && node !in all && Snap(U)[node] == Cell(true, null, null, node.value)
    modifies U
    ensures Fits(Snap(U), path, Q2, k, keys1, all1) && FirstIs(path, f) && Q2.Node? && Q2.ref == q'
    ensures node.value == old(node.value)
    ensures if s.q.Leaf? then q' == node && Q2.value == node.value && Outcome(keys, all, keys1, all1, node, node.value)
            else keys1 == keys && all1 == all && OnlyIn(old(Snap(U)), Snap(U), all)
    ensures OnlyIn(old(Snap(U)), Snap(U), all + multiset{node})
    ensures s.q.Node? && Q2.value != node.value ==> MovesTo(Snap(U), s, r, Q2, node.value, keys, all, f)
  {
    hide InPass, Fits, OnlyIn, Ready, RedBlack, At, KeysAt, Keys, PathRefs, Refs, Ascending, Changes, Changed, BothRed,
         RepairResult, NeedsRepair, Depth, Pointers, IsRed;
    ghost var h, v := Snap(U), node.value;
    PassMeans(h, s, v, keys, all);
    ghost var Q1;
    q', Q1 := ChangeAt(p, q, dir, node, U, s.path, s.q);
    AfterChange(s.stage, s.path, s.q, s.k, v, node, Q1);
    ghost var h1 := Snap(U);
    keys1, all1 := KeysAt(s.path, Q1), PathRefs(s.path) + Refs(Q1);
    Sofar(h, s, v, keys, all, node, Q1);
    path, Q2, k := RepairAt(t, g, p, q', last, node, U, s, Q1, keys1, all1);
    Both(h, h1, Snap(U), all, all1, node);
    ValueAt(Snap(U), path, Q2, k, keys1, all1);
    FirstStays(s.path, s.k, Q1, path, Q2, k, f);
    if s.q.Node? && Q2.value != v {
      r := NextSpot(h, Snap(U), s, v, keys, all, node, Q1, path, Q2, k, f);
    } else {
      r := s;
    }
  }

  lemma Both(h: Heap, h1: Heap, h2: Heap, all: multiset<RbNode>, all1: multiset<RbNode>, node: RbNode)
    requires OnlyIn(h, h1, all) && OnlyIn(h1, h2, all1) && node in h && node !in all
    requires all1 == all || all1 == all + multiset{node}
    ensures OnlyIn(h, h2, all + multiset{node}) &&
            (all1 == all ==> OnlyIn(h, h2, all) && node in h2 && h2[node] == h[node])
  {
  }

  /** The whole pass, below the false root. */
  method Pass(head: RbNode, root: RbNode, node: RbNode, ghost U: set<RbNode>, ghost T: Tree, ghost k0: int)
    returns (ghost T': Tree, ghost n: int)
    requires head in U && node in U && root == RefOf(T)
    requires var f := HeadFrame(head, head.value);
             && Fits(Snap(U), [f], T, k0, Keys(T), PathRefs([f]) + Refs(T)) && !IsRed(T) && Ascending(Keys(T))
             && node !in PathRefs([f]) + Refs(T)
    requires Snap(U)[node] == Cell(true, null, null, node.value)
    modifies U
    ensures node.value == old(node.value) && head.value == old(head.value)
    ensures var f := HeadFrame(head, head.value);
            && Fits(Snap(U), [f], T', n, Keys(T'), PathRefs([f]) + Refs(T')) && T'.Node? && Ascending(Keys(T'))
            && Outcome(Keys(T), PathRefs([f]) + Refs(T), Keys(T'), PathRefs([f]) + Refs(T'), node, node.value)
            && OnlyIn(old(Snap(U)), Snap(U), PathRefs([f]) + Refs(T) + multiset{node})
  {
    hide InPass, Fits, OnlyIn, KeysAt, Keys, PathRefs, Refs, Ascending, Outcome, Depth, IsRed;
    ghost var f, h0, v := HeadFrame(head, head.value), Snap(U), node.value;
    ghost var keys, all := Keys(T), PathRefs([f]) + Refs(T);
    var t: RbNode, g: RbNode?, p: RbNode?, q: RbNode? := head, null, null, root;
    var dir, last := false, false;
    ghost var s := Spot(Fresh, [f], T, k0, t, g, p, last, dir);
    Starts(h0, s, v, keys, all);
    NothingChanged(h0, all);
    while true
      invariant InPass(Snap(U), s, v, keys, all) && FirstIs(s.path, f)
      invariant q == RefOf(s.q) && t == s.t && g == s.g && p == s.p && last == s.last && dir == s.dir
      invariant OnlyIn(h0, Snap(U), all) && node.value == v && head.value == f.value
      decreases Depth(s.q, v), if s.stage == BothStale then 0 else 1
    {
      ghost var h := Snap(U);
      Untouched(h0, h, all, node);
      ghost var path, Q2, k, keys1, all1, r;
      q, path, Q2, k, keys1, all1, r := Turn(t, g, p, q, last, dir, node, U, s, keys, all, f);
      OnlyInBoth(h0, h, Snap(U), all, node);
      ValueAt(Snap(U), path, Q2, k, keys1, all1);
      HeadValue(Snap(U), path, Q2, k, keys1, all1, f);
      if q.value == node.value {
        T', n := Ends(Snap(U), s.q, v, keys, all, node, keys1, all1, path, Q2, k, f);
        return;
      }
      last := dir;
      dir := q.value < node.value;
      if g != null {
        t := g;
      }
      g, p := p, q;
      q := Link(q, dir);
      s := r;
    }
  }

  ghost predicate FirstIs(path: seq<Frame>, f: Frame) {
    path != [] && path[0] == f
  }

  lemma Starts(h: Heap, s: Spot, v: int, keys: seq<int>, all: multiset<RbNode>)
    requires |s.path| == 1 && s.q.Node? && !IsRed(s.q) && Fits(h, s.path, s.q, s.k, keys, all)
    requires s == Spot(Fresh, s.path, s.q, s.k, s.path[0].ref, null, null, false, false)
    ensures InPass(h, s, v, keys, all)
  {
  }

  lemma PassMeans(h: Heap, s: Spot, v: int, keys: seq<int>, all: multiset<RbNode>)
    requires InPass(h, s, v, keys, all)
    ensures s.path != [] && At(h, s.path, s.q) && Ready(s.stage, s.path, s.q, s.k, v)
    ensures Pointers(s.stage, s.path, s.t, s.g, s.p)
    ensures KeysAt(s.path, s.q) == keys && PathRefs(s.path) + Refs(s.q) == all
    ensures s.q.Leaf? ==> |s.path| >= 2 && s.p == s.path[|s.path| - 1].ref && s.dir == s.path[|s.path| - 1].dir
    ensures |s.path| >= 3 && s.stage != BothStale ==> s.last == s.path[|s.path| - 2].dir
  {
  }

  lemma Untouched(h0: Heap, h: Heap, all: multiset<RbNode>, x: RbNode)
    requires OnlyIn(h0, h, all) && x in h0 && x !in all
    ensures x in h && h[x] == h0[x]
  {
  }

  /** The keys and the nodes after the change. */
  lemma Sofar(h: Heap, s: Spot, v: int, keys: seq<int>, all: multiset<RbNode>, node: RbNode, q1: Tree)
    requires InPass(h, s, v, keys, all) && Ascending(keys)
    requires q1 == if Changes(s.q) then Changed(s.q, node, v) else s.q
    ensures q1.Node?
    ensures var keys1, all1 := KeysAt(s.path, q1), PathRefs(s.path) + Refs(q1);
            if s.q.Leaf? then q1.ref == node && q1.value == v && Outcome(keys, all, keys1, all1, node, v)
            else q1.ref == s.q.ref && q1.value == s.q.value && keys1 == keys && all1 == all
  {
    hide At, Ascending, KeysAt, PathRefs, Settled, Route, PathBlack, PathProper, Pointers, Keys;
    ReadyMeans(s.stage, s.path, s.q, s.k, v);
    if Changes(s.q) {
      ChangedKeys(s.path, s.q, node, v, s.k);
      ChangedRefs(s.q, node, v);
    }
  }

  lemma ChangedRefs(q: Tree, node: RbNode, v: int)
    requires Changes(q)
    ensures Refs(Changed(q, node, v)) == if q.Leaf? then multiset{node} else Refs(q)
    ensures Refs(Leaf) == multiset{}
  {
  }

  lemma OnlyInBoth(h0: Heap, h: Heap, h': Heap, all: multiset<RbNode>, node: RbNode)
    requires OnlyIn(h0, h, all)
    ensures OnlyIn(h, h', all) ==> OnlyIn(h0, h', all)
    ensures OnlyIn(h, h', all + multiset{node}) ==> OnlyIn(h0, h', all + multiset{node})
  {
  }

  lemma HeadValue(h: Heap, path: seq<Frame>, q: Tree, k: int, keys: seq<int>, all: multiset<RbNode>, f: Frame)
    requires Fits(h, path, q, k, keys, all) && FirstIs(path, f)
    ensures f.ref in h && h[f.ref].value == f.value
  {
    FirstHolds(h, path, RefOf(q));
  }

  lemma {:induction false} FirstHolds(h: Heap, path: seq<Frame>, x: RbNode?)
    requires path != [] && HoldsPath(h, path, x)
    ensures path[0].ref in h && h[path[0].ref].value == path[0].value
  {
    if |path| > 1 {
      FirstHolds(h, path[..|path| - 1], path[|path| - 1].ref);
    }
  }

  lemma ValueAt(h: Heap, path: seq<Frame>, q: Tree, k: int, keys: seq<int>, all: multiset<RbNode>)
    requires Fits(h, path, q, k, keys, all) && q.Node?
    ensures q.ref in h && h[q.ref].value == q.value
    ensures LinkOf(h[q.ref], true) == RefOf(q.right) && LinkOf(h[q.ref], false) == RefOf(q.left)
  {
  }

  lemma FirstStays(path: seq<Frame>, k: int, q: Tree, path': seq<Frame>, q': Tree, k': int, f: Frame)
    requires FirstIs(path, f) && RepairResult(path, k, q, path', q', k')
    ensures FirstIs(path', f)
  {
  }

  lemma Ends(h: Heap, q: Tree, v: int, keys: seq<int>, all: multiset<RbNode>, node: RbNode, keys1: seq<int>,
             all1: multiset<RbNode>, path: seq<Frame>, q2: Tree, k: int, f: Frame)
    returns (t: Tree, n: int)
    requires Fits(h, path, q2, k, keys1, all1) && FirstIs(path, f) && q2.Node? && q2.value == v && Ascending(keys)
    requires if q.Leaf? then Outcome(keys, all, keys1, all1, node, v) else keys1 == keys && all1 == all
    ensures Fits(h, [f], t, n, Keys(t), PathRefs([f]) + Refs(t)) && t.Node? && Ascending(Keys(t))
    ensures Outcome(keys, all, Keys(t), PathRefs([f]) + Refs(t), node, v)
  {
    hide At, RedBlack, Ascending, PathRefs, Refs;
    t, n := Climb(h, path, q2, k);
    assert KeysAt([f], t) == Keys(t);
    OldKey(path, q2);
  }

  lemma NextSpot(h0: Heap, h: Heap, s: Spot, v: int, keys: seq<int>, all: multiset<RbNode>, node: RbNode, q1: Tree,
                 path: seq<Frame>, q2: Tree, k: int, f: Frame)
    returns (r: Spot)
    requires InPass(h0, s, v, keys, all) && s.q.Node? && q1.Node? && q1.value != v && FirstIs(path, f)
    requires q1 == if Changes(s.q) then Changed(s.q, node, v) else s.q
    requires if BothRed(s.path, q1) then NeedsRepair(s.path, q1, s.k) && s.stage == Fresh && Changes(s.q)
             else !Changes(s.q) ==> h == h0
    requires Changes(s.q) ==> s.stage == Fresh
    requires Fits(h, path, q2, k, keys, all) && q2.Node? && q2.value == q1.value && q2.ref == q1.ref
    requires RepairResult(s.path, s.k, q1, path, q2, k)
    ensures MovesTo(h, s, r, q2, v, keys, all, f)
  {
    hide InPass, Fits, NeedsRepair, Repaired, RepairedPath, RepairedFocus, RepairedHeight, Depth, Flipped;
    FlippedRoot(s.q);
    if !Changes(s.q) {
      MovePlain(h, s, v, keys, all);
      r := Moved(s, if s.stage == BothStale then TopStale else Fresh, s.path, s.q, s.k - Shade(s.q.red), v);
    } else if BothRed(s.path, q1) {
      PassPointers(h0, s, v, keys, all, q1);
      MoveRepaired(h0, h, s, v, keys, all);
      var single := s.path[|s.path| - 2].dir == s.path[|s.path| - 1].dir;
      r := Moved(s, if single then TopStale else BothStale, path, q2, s.k, v);
    } else {
      MoveFlipped(h0, h, s, v, keys, all);
      r := Moved(s, Fresh, s.path, q1, s.k, v);
    }
  }

  lemma PassPointers(h: Heap, s: Spot, v: int, keys: seq<int>, all: multiset<RbNode>, q1: Tree)
    requires InPass(h, s, v, keys, all) && NeedsRepair(s.path, q1, s.k) && s.stage == Fresh
    ensures s.p != null && s.g != null && |s.path| >= 3
  {
  }
}
