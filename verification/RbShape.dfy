/**
 What makes a red-black tree: the keys in order, no red node below a red one, and as many black nodes on
 every way down. Each is stated for a subtree and for the path above it; the first frame of a path is
 the false root of the source, which holds no key and counts as black.
 */
module RbShape {
  import opened RbTree

  // ---------------------------------------------------------------------------
  // Keys
  // ---------------------------------------------------------------------------

  ghost function Keys(t: Tree): (s: seq<int>) {
    if t.Leaf? then [] else Keys(t.left) + [t.value] + Keys(t.right)
  }

  /** The keys before the position. */
  ghost function Lefts(path: seq<Frame>): (s: seq<int>) {
    if |path| <= 1 then []
    else
      var f, rest := path[|path| - 1], path[..|path| - 1];
      if f.dir then Lefts(rest) + Keys(f.sibling) + [f.value] else Lefts(rest)
  }

  /** The keys behind the position. */
  ghost function Rights(path: seq<Frame>): (s: seq<int>) {
    if |path| <= 1 then []
    else
      var f, rest := path[|path| - 1], path[..|path| - 1];
      if f.dir then Rights(rest) else [f.value] + Keys(f.sibling) + Rights(rest)
  }

  ghost function KeysAt(path: seq<Frame>, t: Tree): (s: seq<int>) {
    Lefts(path) + Keys(t) + Rights(path)
  }

  ghost predicate Ascending(s: seq<int>) {
    forall i, j :: 0 <= i < j < |s| ==> s[i] < s[j]
  }

  lemma KeysEnd(path: seq<Frame>, f: Frame)
    requires path != []
    ensures Lefts(path + [f]) == if f.dir then Lefts(path) + Keys(f.sibling) + [f.value] else Lefts(path)
    ensures Rights(path + [f]) == if f.dir then Rights(path) else [f.value] + Keys(f.sibling) + Rights(path)
  {
    assert (path + [f])[..|path|] == path;
  }

  lemma KeysUp(path: seq<Frame>, f: Frame, t: Tree)
    requires path != []
    ensures KeysAt(path + [f], t) == KeysAt(path, Fill(f, t))
  {
    hide Lefts, Rights;
    KeysEnd(path, f);
  }

  lemma RotatedKeys(t: Tree, dir: bool)
    requires t.Node? && Child(t, !dir).Node?
    ensures Keys(Rotated(t, dir)) == Keys(t)
  {
    var c := Child(t, !dir);
    var low := Make(t.ref, true, t.value, dir, Child(t, dir), Child(c, dir));
    if dir {
      assert Keys(low) == Keys(c.right) + [t.value] + Keys(t.right);
    } else {
      assert Keys(low) == Keys(t.left) + [t.value] + Keys(c.left);
    }
  }

  lemma RotatedTwiceKeys(t: Tree, dir: bool)
    requires t.Node? && Child(t, !dir).Node? && Child(Child(t, !dir), dir).Node?
    ensures Keys(RotatedTwice(t, dir)) == Keys(t)
  {
    hide Rotated;
    var c := Child(t, !dir);
    RotatedKeys(c, !dir);
    var u := Make(t.ref, t.red, t.value, dir, Child(t, dir), Rotated(c, !dir));
    RotatedIsNode(c, !dir);
    RotatedKeys(u, dir);
  }

  lemma RotatedIsNode(t: Tree, dir: bool)
    requires t.Node? && Child(t, !dir).Node?
    ensures Rotated(t, dir).Node?
  {
  }

  // ---------------------------------------------------------------------------
  // Colours
  // ---------------------------------------------------------------------------

  /** rbtree_node_is_red: a null link is black. */
  predicate IsRed(t: Tree) {
    t.Node? && t.red
  }

  function Shade(red: bool): (n: nat) {
    if red then 0 else 1
  }

  /** Every way down `t` meets `k` black nodes. */
  ghost predicate Black(t: Tree, k: int) {
    if t.Leaf? then k == 0 else Black(t.left, k - Shade(t.red)) && Black(t.right, k - Shade(t.red))
  }

  ghost predicate PathBlack(path: seq<Frame>, k: int) {
    |path| <= 1 ||
    var f := path[|path| - 1];
    Black(f.sibling, k) && PathBlack(path[..|path| - 1], k + Shade(f.red))
  }

  ghost predicate Proper(t: Tree) {
    t.Node? ==> Proper(t.left) && Proper(t.right) && (t.red ==> !IsRed(t.left) && !IsRed(t.right))
  }

  ghost predicate PathProper(path: seq<Frame>, red: bool) {
    |path| <= 1 ||
    var f := path[|path| - 1];
    Proper(f.sibling) && (f.red ==> !red && !IsRed(f.sibling)) && PathProper(path[..|path| - 1], f.red)
  }

  ghost predicate RedBlack(path: seq<Frame>, t: Tree, k: int) {
    Black(t, k) && PathBlack(path, k) && Proper(t) && PathProper(path, IsRed(t))
  }

  lemma ColoursEnd(path: seq<Frame>, f: Frame, k: int, red: bool)
    requires path != []
    ensures PathBlack(path + [f], k) <==> Black(f.sibling, k) && PathBlack(path, k + Shade(f.red))
    ensures PathProper(path + [f], red) <==>
            Proper(f.sibling) && (f.red ==> !red && !IsRed(f.sibling)) && PathProper(path, f.red)
  {
    assert (path + [f])[..|path|] == path;
  }

  lemma FilledColours(f: Frame, t: Tree, k: int)
    ensures Black(Fill(f, t), k + Shade(f.red)) <==> Black(f.sibling, k) && Black(t, k)
    ensures Proper(Fill(f, t)) <==> Proper(f.sibling) && Proper(t) && (f.red ==> !IsRed(t) && !IsRed(f.sibling))
  {
  }

  lemma ColoursUp(path: seq<Frame>, f: Frame, t: Tree, k: int)
    requires path != []
    ensures RedBlack(path + [f], t, k) <==> RedBlack(path, Fill(f, t), k + Shade(f.red))
  {
    hide Black, PathBlack, Proper, PathProper;
    ColoursEnd(path, f, k, IsRed(t));
    FilledColours(f, t, k);
  }

  lemma MadeColours(ref: RbNode, red: bool, value: int, dir: bool, x: Tree, y: Tree, k: int)
    ensures var t := Make(ref, red, value, dir, x, y);
            && (Black(t, k + Shade(red)) <==> Black(x, k) && Black(y, k))
            && (Proper(t) <==> Proper(x) && Proper(y) && (red ==> !IsRed(x) && !IsRed(y)))
            && IsRed(t) == red
  {
  }

  // ---------------------------------------------------------------------------
  // Repairs
  // ---------------------------------------------------------------------------

  /** A red node below a red one on the outer side, with a black uncle. */
  lemma SingleRepair(g: Frame, p: Frame, q: Tree, k: int)
    requires !g.red && p.red && IsRed(q) && g.dir == p.dir
    requires Black(q, k) && Black(p.sibling, k) && Black(g.sibling, k)
    requires Proper(q) && Proper(p.sibling) && Proper(g.sibling) && !IsRed(p.sibling) && !IsRed(g.sibling)
    ensures var top := Fill(g, Fill(p, q));
            && Child(top, g.dir).Node?
            && var r := Rotated(top, !g.dir);
               && r.Node? && r.ref == p.ref && Child(r, g.dir) == q && Child(r, !g.dir).Node?
               && !r.red && Black(r, k + 1) && Proper(r)
  {
    hide Black, Proper, Make;
    var low := Make(g.ref, true, g.value, !g.dir, g.sibling, p.sibling);
    MadeColours(g.ref, true, g.value, !g.dir, g.sibling, p.sibling, k);
    MadeColours(p.ref, false, p.value, !g.dir, low, q, k);
    MakeParts(p.ref, false, p.value, !g.dir, low, q);
    MakeParts(g.ref, true, g.value, !g.dir, g.sibling, p.sibling);
  }

  /** A red node below a red one on the inner side, with a black uncle. */
  lemma DoubleRepair(g: Frame, p: Frame, q: Tree, k: int)
    requires !g.red && p.red && IsRed(q) && g.dir != p.dir
    requires Black(q, k) && Black(p.sibling, k) && Black(g.sibling, k)
    requires Proper(q) && Proper(p.sibling) && Proper(g.sibling) && !IsRed(p.sibling) && !IsRed(g.sibling)
    ensures var top := Fill(g, Fill(p, q));
            && Child(top, g.dir).Node? && Child(Child(top, g.dir), !g.dir).Node?
            && var r := RotatedTwice(top, !g.dir);
               && r == Make(q.ref, false, q.value, !g.dir,
                            Make(g.ref, true, g.value, !g.dir, g.sibling, Child(q, !g.dir)),
                            Make(p.ref, true, p.value, g.dir, p.sibling, Child(q, g.dir)))
               && Black(r, k + 1) && Proper(r)
  {
    hide Black, Proper;
    var x := Make(g.ref, true, g.value, !g.dir, g.sibling, Child(q, !g.dir));
    var y := Make(p.ref, true, p.value, g.dir, p.sibling, Child(q, g.dir));
    RedParts(q, k);
    MadeColours(g.ref, true, g.value, !g.dir, g.sibling, Child(q, !g.dir), k);
    MadeColours(p.ref, true, p.value, g.dir, p.sibling, Child(q, g.dir), k);
    MadeColours(q.ref, false, q.value, !g.dir, x, y, k);
  }

  lemma RedParts(q: Tree, k: int)
    requires IsRed(q) && Black(q, k) && Proper(q)
    ensures Black(q.left, k) && Black(q.right, k) && Proper(q.left) && Proper(q.right) && !IsRed(q.left) &&
            !IsRed(q.right)
  {
  }

  /** The colour flip of a node with two red children. */
  function Flipped(q: Tree): (r: Tree)
    requires q.Node? && q.left.Node? && q.right.Node?
  {
    Node(q.ref, true, q.value, q.left.(red := false), q.right.(red := false))
  }

  lemma FlippedFits(q: Tree, k: int)
    requires q.Node? && IsRed(q.left) && IsRed(q.right) && Black(q, k) && Proper(q)
    ensures !q.red && Black(Flipped(q), k) && Proper(Flipped(q)) && Keys(Flipped(q)) == Keys(q)
  {
  }
}
