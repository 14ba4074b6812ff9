/**
 The kernel's red-black tree as seen from inside one of its top-down loops: the nodes in memory, the
 tree they form, and the path from the root to the node the loop has reached.

 Memory is a map from nodes to their fields. A tree holds in it when every node of the tree has the
 fields that the tree says, and no node occurs twice. A position is a path, outermost first, and the
 subtree at its end; the two rotations of the source only ever replace that subtree.
 */
module RbTree {

  class RbNode {
    var red: bool
    var left: RbNode?
    var right: RbNode?
    var value: int

    constructor (value: int)
      ensures red && left == null && right == null && this.value == value
    {
      red := true;
      left, right := null, null;
      this.value := value;
    }
  }

  datatype Cell = Cell(red: bool, left: RbNode?, right: RbNode?, value: int)

  type Heap = map<RbNode, Cell>

  ghost function Snap(U: set<RbNode>): (h: Heap)
    reads U
  {
    map x | x in U :: Cell(x.red, x.left, x.right, x.value)
  }

  /** `link[dir]`. */
  function LinkOf(c: Cell, dir: bool): (x: RbNode?) {
    if dir then c.right else c.left
  }

  function WithLink(c: Cell, dir: bool, x: RbNode?): (r: Cell) {
    if dir then c.(right := x) else c.(left := x)
  }

  // ---------------------------------------------------------------------------
  // Trees in memory
  // ---------------------------------------------------------------------------

  datatype Tree = Leaf | Node(ref: RbNode, red: bool, value: int, left: Tree, right: Tree)

  function RefOf(t: Tree): (x: RbNode?) {
    if t.Leaf? then null else t.ref
  }

  ghost predicate Holds(h: Heap, t: Tree) {
    t.Node? ==>
      && t.ref in h && h[t.ref] == Cell(t.red, RefOf(t.left), RefOf(t.right), t.value)
      && Holds(h, t.left) && Holds(h, t.right)
  }

  ghost function Refs(t: Tree): (m: multiset<RbNode>) {
    if t.Leaf? then multiset{} else multiset{t.ref} + Refs(t.left) + Refs(t.right)
  }

  /** A node above the position: the path goes on at link `dir`, and `sibling` hangs at the other. */
  datatype Frame = Frame(ref: RbNode, red: bool, value: int, dir: bool, sibling: Tree)

  function FrameCell(f: Frame, x: RbNode?): (c: Cell) {
    if f.dir then Cell(f.red, RefOf(f.sibling), x, f.value) else Cell(f.red, x, RefOf(f.sibling), f.value)
  }

  ghost predicate HoldsPath(h: Heap, path: seq<Frame>, x: RbNode?) {
    path != [] ==>
      var f := path[|path| - 1];
      && f.ref in h && h[f.ref] == FrameCell(f, x) && Holds(h, f.sibling)
      && HoldsPath(h, path[..|path| - 1], f.ref)
  }

  ghost function PathRefs(path: seq<Frame>): (m: multiset<RbNode>) {
    if path == [] then multiset{}
    else
      var f := path[|path| - 1];
      multiset{f.ref} + Refs(f.sibling) + PathRefs(path[..|path| - 1])
  }

  ghost predicate Unique(m: multiset<RbNode>) {
    forall x :: x in m ==> m[x] == 1
  }

  /** Memory holds the subtree `t` at the end of `path`. */
  ghost predicate At(h: Heap, path: seq<Frame>, t: Tree) {
    HoldsPath(h, path, RefOf(t)) && Holds(h, t) && Unique(PathRefs(path) + Refs(t))
  }

  ghost predicate SameOn(h: Heap, h': Heap, m: multiset<RbNode>) {
    forall x :: x in m && x in h ==> x in h' && h'[x] == h[x]
  }

  lemma {:induction false} HoldsElsewhere(h: Heap, h': Heap, t: Tree)
    requires Holds(h, t) && SameOn(h, h', Refs(t))
    ensures Holds(h', t)
  {
    if t.Node? {
      HoldsElsewhere(h, h', t.left);
      HoldsElsewhere(h, h', t.right);
    }
  }

  lemma {:induction false} PathElsewhere(h: Heap, h': Heap, path: seq<Frame>, x: RbNode?)
    requires HoldsPath(h, path, x) && SameOn(h, h', PathRefs(path))
    ensures HoldsPath(h', path, x)
  {
    if path != [] {
      var f, rest := path[|path| - 1], path[..|path| - 1];
      assert f.ref in PathRefs(path);
      HoldsElsewhere(h, h', f.sibling);
      PathElsewhere(h, h', rest, f.ref);
    }
  }

  // ---------------------------------------------------------------------------
  // Moving along the path
  // ---------------------------------------------------------------------------

  function Child(t: Tree, dir: bool): (c: Tree)
    requires t.Node?
  {
    if dir then t.right else t.left
  }

  function FrameOf(t: Tree, dir: bool): (f: Frame)
    requires t.Node?
  {
    Frame(t.ref, t.red, t.value, dir, Child(t, !dir))
  }

  function Fill(f: Frame, t: Tree): (r: Tree) {
    if f.dir then Node(f.ref, f.red, f.value, f.sibling, t) else Node(f.ref, f.red, f.value, t, f.sibling)
  }

  lemma PathEnd(h: Heap, path: seq<Frame>, f: Frame, x: RbNode?)
    ensures HoldsPath(h, path + [f], x) <==>
            f.ref in h && h[f.ref] == FrameCell(f, x) && Holds(h, f.sibling) && HoldsPath(h, path, f.ref)
    ensures PathRefs(path + [f]) == multiset{f.ref} + Refs(f.sibling) + PathRefs(path)
  {
    assert (path + [f])[..|path|] == path;
  }

  lemma FilledHolds(h: Heap, f: Frame, t: Tree)
    ensures Holds(h, Fill(f, t)) <==>
            f.ref in h && h[f.ref] == FrameCell(f, RefOf(t)) && Holds(h, f.sibling) && Holds(h, t)
    ensures Refs(Fill(f, t)) == multiset{f.ref} + Refs(f.sibling) + Refs(t)
  {
  }

  lemma Up(h: Heap, path: seq<Frame>, f: Frame, t: Tree)
    ensures At(h, path + [f], t) <==> At(h, path, Fill(f, t))
  {
    hide Unique, Holds, HoldsPath, Refs, PathRefs;
    PathEnd(h, path, f, RefOf(t));
    FilledHolds(h, f, t);
    assert PathRefs(path + [f]) + Refs(t) == PathRefs(path) + Refs(Fill(f, t));
  }

  lemma Down(h: Heap, path: seq<Frame>, t: Tree, dir: bool)
    requires At(h, path, t) && t.Node?
    ensures At(h, path + [FrameOf(t, dir)], Child(t, dir))
  {
    hide At;
    Up(h, path, FrameOf(t, dir), Child(t, dir));
    assert Fill(FrameOf(t, dir), Child(t, dir)) == t;
  }

  // ---------------------------------------------------------------------------
  // Rotations
  // ---------------------------------------------------------------------------

  /** The node `ref` with `x` at link `dir` and `y` at the other. */
  function Make(ref: RbNode, red: bool, value: int, dir: bool, x: Tree, y: Tree): (t: Tree) {
    if dir then Node(ref, red, value, y, x) else Node(ref, red, value, x, y)
  }

  function Rotated(t: Tree, dir: bool): (r: Tree)
    requires t.Node? && Child(t, !dir).Node?
  {
    var c := Child(t, !dir);
    Make(c.ref, false, c.value, dir, Make(t.ref, true, t.value, dir, Child(t, dir), Child(c, dir)), Child(c, !dir))
  }

  function RotatedTwice(t: Tree, dir: bool): (r: Tree)
    requires t.Node? && Child(t, !dir).Node? && Child(Child(t, !dir), dir).Node?
  {
    Rotated(Make(t.ref, t.red, t.value, dir, Child(t, dir), Rotated(Child(t, !dir), !dir)), dir)
  }

  /** What rbtree_node_rotate does to memory. */
  ghost function RotatedCells(h: Heap, x: RbNode, dir: bool): (r: Heap)
    requires x in h && LinkOf(h[x], !dir) != null && LinkOf(h[x], !dir) in h
  {
    var y := LinkOf(h[x], !dir);
    h[x := WithLink(h[x], !dir, LinkOf(h[y], dir)).(red := true)][y := WithLink(h[y], dir, x).(red := false)]
  }

  function CellOf(red: bool, value: int, dir: bool, x: RbNode?, y: RbNode?): (c: Cell) {
    if dir then Cell(red, y, x, value) else Cell(red, x, y, value)
  }

  lemma HoldsBy(h: Heap, t: Tree, dir: bool)
    requires t.Node?
    ensures Holds(h, t) <==>
            && t.ref in h && h[t.ref] == CellOf(t.red, t.value, dir, RefOf(Child(t, dir)), RefOf(Child(t, !dir)))
            && Holds(h, Child(t, dir)) && Holds(h, Child(t, !dir))
  {
  }

  lemma MakeParts(ref: RbNode, red: bool, value: int, dir: bool, x: Tree, y: Tree)
    ensures var t := Make(ref, red, value, dir, x, y);
            && t.Node? && t.ref == ref && t.red == red && t.value == value && Child(t, dir) == x && Child(t, !dir) == y
  {
  }

  lemma CellLinks(red: bool, value: int, dir: bool, x: RbNode?, y: RbNode?, z: RbNode?)
    ensures var c := CellOf(red, value, dir, x, y);
            && LinkOf(c, dir) == x && LinkOf(c, !dir) == y
            && WithLink(c, dir, z).(red := false) == CellOf(false, value, dir, z, y)
            && WithLink(c, !dir, z).(red := true) == CellOf(true, value, dir, x, z)
  {
  }

  lemma RotatedMemory(h: Heap, x: RbNode, y: RbNode, dir: bool)
    requires x in h && y in h && x != y && LinkOf(h[x], !dir) == y
    ensures var h' := RotatedCells(h, x, dir);
            && h'.Keys == h.Keys
            && h'[x] == WithLink(h[x], !dir, LinkOf(h[y], dir)).(red := true)
            && h'[y] == WithLink(h[y], dir, x).(red := false)
            && forall z :: z in h && z != x && z != y ==> h'[z] == h[z]
  {
    hide LinkOf, WithLink;
  }

  lemma RotatedHolds(h: Heap, t: Tree, dir: bool)
    requires t.Node? && Child(t, !dir).Node? && Holds(h, t) && Unique(Refs(t))
    ensures t.ref in h && LinkOf(h[t.ref], !dir) == Child(t, !dir).ref && Child(t, !dir).ref in h
    ensures Holds(RotatedCells(h, t.ref, dir), Rotated(t, dir))
    ensures Refs(Rotated(t, dir)) == Refs(t)
    ensures RotatedCells(h, t.ref, dir).Keys == h.Keys
    ensures forall z :: z in h && z !in Refs(t) ==> RotatedCells(h, t.ref, dir)[z] == h[z]
  {
    hide Holds, Refs, Make, Child, Unique, RotatedCells, CellOf, LinkOf, WithLink;
    var c := Child(t, !dir);
    var x, y, z := Child(t, dir), Child(c, dir), Child(c, !dir);
    HoldsBy(h, t, dir);
    HoldsBy(h, c, dir);
    RefsOf(t, dir);
    RefsOf(c, dir);
    Outside(t.ref, c.ref, Refs(x), Refs(y), Refs(z), Refs(t));
    CellLinks(t.red, t.value, dir, RefOf(x), c.ref, RefOf(y));
    CellLinks(c.red, c.value, dir, RefOf(y), RefOf(z), t.ref);
    RotatedMemory(h, t.ref, c.ref, dir);
    var h' := RotatedCells(h, t.ref, dir);
    HoldsElsewhere(h, h', x);
    HoldsElsewhere(h, h', y);
    HoldsElsewhere(h, h', z);
    var low := Make(t.ref, true, t.value, dir, x, y);
    MakeParts(t.ref, true, t.value, dir, x, y);
    MakeParts(c.ref, false, c.value, dir, low, z);
    HoldsBy(h', low, dir);
    HoldsBy(h', Rotated(t, dir), dir);
    RefsOf(low, dir);
    RefsOf(Rotated(t, dir), dir);
  }

  lemma RefsOf(t: Tree, dir: bool)
    requires t.Node?
    ensures Refs(t) == multiset{t.ref} + Refs(Child(t, dir)) + Refs(Child(t, !dir))
  {
  }

  lemma Outside(a: RbNode, c: RbNode, x: multiset<RbNode>, y: multiset<RbNode>, z: multiset<RbNode>,
                all: multiset<RbNode>)
    requires all == multiset{a} + x + (multiset{c} + y + z) && Unique(all)
    ensures a != c && a !in x && a !in y && a !in z && c !in x && c !in y && c !in z
  {
    assert a in all && c in all;
  }

  /** The rearranged subtree is linked to the node above it. */
  lemma Relink(h: Heap, h1: Heap, path: seq<Frame>, f: Frame, t: Tree, t': Tree)
    requires At(h, path + [f], t) && Holds(h1, t') && Refs(t') == Refs(t)
    requires forall z :: z in h && z !in Refs(t) ==> z in h1 && h1[z] == h[z]
    ensures f.ref in h1
    ensures At(h1[f.ref := WithLink(h1[f.ref], f.dir, RefOf(t'))], path + [f], t')
  {
    hide Holds, HoldsPath, Refs, PathRefs, Unique;
    PathEnd(h, path, f, RefOf(t));
    OffPath(path, f, t);
    var h2 := h1[f.ref := WithLink(h1[f.ref], f.dir, RefOf(t'))];
    PathElsewhere(h, h2, path, f.ref);
    HoldsElsewhere(h, h2, f.sibling);
    HoldsElsewhere(h1, h2, t');
    PathEnd(h2, path, f, RefOf(t'));
  }

  lemma OffPath(path: seq<Frame>, f: Frame, t: Tree)
    requires Unique(PathRefs(path + [f]) + Refs(t))
    ensures f.ref !in Refs(t) && f.ref !in PathRefs(path) && f.ref !in Refs(f.sibling)
    ensures forall z :: z in PathRefs(path) || z in Refs(f.sibling) ==> z !in Refs(t)
  {
    hide Refs, PathRefs;
    PathEnd(map[], path, f, null);
    UniqueSplit(PathRefs(path + [f]), Refs(t));
    UniqueSplit(multiset{f.ref}, Refs(f.sibling) + PathRefs(path) + Refs(t));
    assert PathRefs(path + [f]) + Refs(t) == multiset{f.ref} + (Refs(f.sibling) + PathRefs(path) + Refs(t));
  }

  lemma UniqueSplit(a: multiset<RbNode>, b: multiset<RbNode>)
    ensures Unique(a + b) ==> forall z :: z in a ==> z !in b
  {
    if Unique(a + b) {
      forall z | z in a
        ensures z !in b
      {
        assert z in a + b;
      }
    }
  }

  /** What rbtree_node_rotate2 does to memory. */
  ghost predicate RotatesTwice(h: Heap, x: RbNode, dir: bool, h': Heap) {
    && x in h && LinkOf(h[x], !dir) != null
    && var y := LinkOf(h[x], !dir);
       && y in h && LinkOf(h[y], dir) != null
       && var z := LinkOf(h[y], dir);
          && z in h
          && var h1 := RotatedCells(h, y, !dir);
             && x in h1
             && var h2 := h1[x := WithLink(h1[x], !dir, z)];
                z in h2 && h' == RotatedCells(h2, x, dir)
  }

  /** After the rotation of the child and the link to it. */
  lemma HalfRotated(h: Heap, t: Tree, dir: bool)
    requires t.Node? && Child(t, !dir).Node? && Child(Child(t, !dir), dir).Node? && Holds(h, t) && Unique(Refs(t))
    ensures var c := Child(t, !dir);
            var u := Make(t.ref, t.red, t.value, dir, Child(t, dir), Rotated(c, !dir));
            && t.ref in h && LinkOf(h[t.ref], !dir) == c.ref && c.ref in h
            && LinkOf(h[c.ref], dir) == Child(c, dir).ref && Child(c, dir).ref in h
            && var h1 := RotatedCells(h, c.ref, !dir);
               && t.ref in h1
               && var h2 := h1[t.ref := WithLink(h1[t.ref], !dir, Child(c, dir).ref)];
                  && h2.Keys == h.Keys && Holds(h2, u) && Refs(u) == Refs(t)
                  && forall z :: z in h && z !in Refs(t) ==> h2[z] == h[z]
  {
    hide Holds, Refs, Unique, Rotated, HoldsPath, PathRefs, RotatedCells, At, LinkOf, WithLink, Child, Make, Fill,
         FrameOf, CellOf;
    var c := Child(t, !dir);
    var f, r := FrameOf(t, !dir), Rotated(c, !dir);
    assert [] + [f] == [f];
    Alone(h, t);
    Down(h, [], t, !dir);
    AtMeans(h, [f], c);
    RotatedHolds(h, c, !dir);
    LinksAre(h, t, !dir);
    RefsOf(t, !dir);
    var h1 := RotatedCells(h, c.ref, !dir);
    RotatedRoot(c, !dir);
    Relink(h, h1, [], f, c, r);
    FrameParts(t, !dir, r);
    var h2 := h1[t.ref := WithLink(h1[t.ref], !dir, r.ref)];
    Up(h2, [], f, r);
    Alone(h2, Fill(f, r));
    RefsOf(Fill(f, r), !dir);
  }

  lemma FrameParts(t: Tree, d: bool, r: Tree)
    requires t.Node?
    ensures var f := FrameOf(t, d);
            && f.ref == t.ref && f.dir == d && Fill(f, r) == Make(t.ref, t.red, t.value, !d, Child(t, !d), r)
            && Fill(f, r).Node? && Child(Fill(f, r), d) == r && Child(Fill(f, r), !d) == Child(t, !d) &&
               Fill(f, r).ref == t.ref
  {
  }

  lemma RotatedTwiceHolds(h: Heap, t: Tree, dir: bool, h': Heap)
    requires t.Node? && Child(t, !dir).Node? && Child(Child(t, !dir), dir).Node? && Holds(h, t) && Unique(Refs(t))
    requires RotatesTwice(h, t.ref, dir, h')
    ensures Holds(h', RotatedTwice(t, dir)) && Refs(RotatedTwice(t, dir)) == Refs(t)
    ensures forall z :: z in h && z !in Refs(t) ==> z in h' && h'[z] == h[z]
  {
    hide Holds, Refs, Unique, Rotated, RotatedCells, LinkOf, WithLink, Child, Make;
    var c := Child(t, !dir);
    var r := Rotated(c, !dir);
    HalfRotated(h, t, dir);
    RotatedRoot(c, !dir);
    MakeParts(t.ref, t.red, t.value, dir, Child(t, dir), r);
    var h1 := RotatedCells(h, c.ref, !dir);
    var h2 := h1[t.ref := WithLink(h1[t.ref], !dir, Child(c, dir).ref)];
    RotatedHolds(h2, Make(t.ref, t.red, t.value, dir, Child(t, dir), r), dir);
  }

  lemma Alone(h: Heap, t: Tree)
    ensures At(h, [], t) <==> Holds(h, t) && Unique(Refs(t))
  {
    assert PathRefs([]) + Refs(t) == Refs(t);
  }

  lemma AtMeans(h: Heap, path: seq<Frame>, t: Tree)
    requires At(h, path, t)
    ensures HoldsPath(h, path, RefOf(t)) && Holds(h, t) && Unique(PathRefs(path) + Refs(t)) && Unique(Refs(t))
  {
    assert forall z :: z in Refs(t) ==> z in PathRefs(path) + Refs(t);
  }

  lemma RotatedRoot(t: Tree, dir: bool)
    requires t.Node? && Child(t, !dir).Node?
    ensures Rotated(t, dir).Node? && Rotated(t, dir).ref == Child(t, !dir).ref
  {
  }

  // ---------------------------------------------------------------------------
  // The source's helpers
  // ---------------------------------------------------------------------------

  function Link(x: RbNode, dir: bool): (y: RbNode?)
    reads x
  {
    if dir then x.right else x.left
  }

  predicate IsRedNode(x: RbNode?)
    reads x
  {
    x != null && x.red
  }

  method SetLink(x: RbNode, dir: bool, y: RbNode?, ghost U: set<RbNode>)
    requires x in U
    modifies x
    ensures Snap(U) == old(Snap(U))[x := WithLink(old(Snap(U))[x], dir, y)]
  {
    if dir {
      x.right := y;
    } else {
      x.left := y;
    }
  }

  method SetRed(x: RbNode, red: bool, ghost U: set<RbNode>)
    requires x in U
    modifies x
    ensures Snap(U) == old(Snap(U))[x := old(Snap(U))[x].(red := red)]
  {
    x.red := red;
  }

  method SetValue(x: RbNode, value: int, ghost U: set<RbNode>)
    requires x in U
    modifies x
    ensures Snap(U) == old(Snap(U))[x := old(Snap(U))[x].(value := value)]
  {
    x.value := value;
  }

  lemma RotatedInSteps(h: Heap, x: RbNode, y: RbNode, dir: bool)
    requires x in h && y in h && x != y && LinkOf(h[x], !dir) == y
    ensures var h1 := h[x := WithLink(h[x], !dir, LinkOf(h[y], dir))];
            var h2 := h1[y := WithLink(h1[y], dir, x)];
            var h3 := h2[x := h2[x].(red := true)];
            h3[y := h3[y].(red := false)] == RotatedCells(h, x, dir)
  {
  }

  method Rotate(x: RbNode, dir: bool, ghost U: set<RbNode>) returns (y: RbNode)
    requires x in U && Link(x, !dir) != null && Link(x, !dir) in U && Link(x, !dir) != x
    modifies U
    ensures y == old(Link(x, !dir)) && LinkOf(old(Snap(U))[x], !dir) == y
    ensures Snap(U) == RotatedCells(old(Snap(U)), x, dir)
  {
    ghost var h := Snap(U);
    y := Link(x, !dir);
    RotatedInSteps(h, x, y, dir);
    hide RotatedCells, LinkOf, WithLink;
    SetLink(x, !dir, Link(y, dir), U);
    SetLink(y, dir, x, U);
    SetRed(x, true, U);
    SetRed(y, false, U);
  }

  method Rotate2(x: RbNode, dir: bool, ghost U: set<RbNode>, ghost t: Tree) returns (y: RbNode)
    requires t.Node? && t.ref == x && Child(t, !dir).Node? && Child(Child(t, !dir), dir).Node?
    requires Holds(Snap(U), t) && Unique(Refs(t))
    modifies U
    ensures y == Child(Child(t, !dir), dir).ref && RotatesTwice(old(Snap(U)), x, dir, Snap(U))
  {
    hide Holds, Refs, Unique, RotatedCells;
    ghost var h, c := Snap(U), Child(t, !dir);
    DistinctThree(h, t, dir);
    LinksAre(h, t, !dir);
    LinksAre(h, c, dir);
    RotatedMemory(h, c.ref, Child(c, dir).ref, !dir);
    y := Rotate(Link(x, !dir), !dir, U);
    SetLink(x, !dir, y, U);
    y := Rotate(x, dir, U);
  }

  lemma LinksAre(h: Heap, t: Tree, dir: bool)
    requires t.Node? && Holds(h, t)
    ensures t.ref in h && LinkOf(h[t.ref], dir) == RefOf(Child(t, dir)) &&
            LinkOf(h[t.ref], !dir) == RefOf(Child(t, !dir))
    ensures Holds(h, Child(t, dir)) && (Child(t, dir).Node? ==> Child(t, dir).ref in h)
  {
  }

  lemma DistinctThree(h: Heap, t: Tree, dir: bool)
    requires t.Node? && Child(t, !dir).Node? && Child(Child(t, !dir), dir).Node? && Unique(Refs(t))
    ensures t.ref != Child(t, !dir).ref && t.ref != Child(Child(t, !dir), dir).ref
    ensures Child(t, !dir).ref != Child(Child(t, !dir), dir).ref
  {
    hide Refs, Unique;
    var c := Child(t, !dir);
    var d := Child(c, dir);
    RefsOf(t, dir);
    RefsOf(c, dir);
    RefsOf(d, dir);
    Outside(t.ref, c.ref, Refs(Child(t, dir)), Refs(d), Refs(Child(c, !dir)), Refs(t));
  }
}
