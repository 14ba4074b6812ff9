/**
 rbtree_tree_remove_with_cb(): one pass down to the node that takes the place of the removed one. The
 pass pushes a red node ahead of itself, so that the node it ends at is red, or the root on its own,
 and can simply be unlinked.
 */
module RbRemove {
  import opened RbTree
  import opened RbShape
  import opened RbInsert

  /** The path is the way the pass takes: left of the value when they are equal. */
  ghost predicate Way(path: seq<Frame>, v: int) {
    forall i :: 1 <= i < |path| ==> (path[i].value < v <==> path[i].dir)
  }

  /** Red here or on the way on, or the root with two black children. */
  ghost predicate Lucky(path: seq<Frame>, q: Tree, dir: bool) {
    q.Node? && (IsRed(q) || IsRed(Child(q, dir)) || (|path| == 1 && !IsRed(q.left) && !IsRed(q.right)))
  }

  // ---------------------------------------------------------------------------
  // Pushing the red node down
  // ---------------------------------------------------------------------------

  /** A red child on the other side: rotated to the top, and the node itself becomes red. */
  lemma RotateDown(path: seq<Frame>, c: Tree, d: bool, k: int)
    requires path != [] && RedBlack(path, c, k) && c.Node? && !c.red && !IsRed(Child(c, d)) && IsRed(Child(c, !d))
    ensures var r := Rotated(c, d);
            && r.Node? && r.ref == Child(c, !d).ref && r.value == Child(c, !d).value && Keys(r) == Keys(c)
            && RedBlack(path, r, k)
            && Child(r, d).Node? && Child(r, d).red && Child(r, d).ref == c.ref && Child(r, d).value == c.value
            && Child(Child(r, d), d) == Child(c, d)
  {
    hide PathBlack, PathProper, Keys, Make, Black, Proper;
    var x := Child(c, !d);
    RotatedKeys(c, d);
    Parts(c, d, k);
    Parts(x, d, k - 1);
    var low := Make(c.ref, true, c.value, d, Child(c, d), Child(x, d));
    MakeParts(c.ref, true, c.value, d, Child(c, d), Child(x, d));
    MakeParts(x.ref, false, x.value, d, low, Child(x, !d));
    MadeColours(c.ref, true, c.value, d, Child(c, d), Child(x, d), k - 1);
    MadeColours(x.ref, false, x.value, d, low, Child(x, !d), k - 1);
  }

  lemma Parts(t: Tree, d: bool, k: int)
    requires t.Node? && Black(t, k) && Proper(t)
    ensures Black(Child(t, d), k - Shade(t.red)) && Black(Child(t, !d), k - Shade(t.red))
    ensures Proper(Child(t, d)) && Proper(Child(t, !d)) && (t.red ==> !IsRed(Child(t, d)) && !IsRed(Child(t, !d)))
  {
  }

  function Painted(t: Tree, red: bool): (r: Tree)
    requires t.Node?
  {
    t.(red := red)
  }

  /** The node and its sibling become red, the parent black. */
  lemma FlipDown(rest: seq<Frame>, f: Frame, c: Tree, k: int)
    requires rest != [] && RedBlack(rest + [f], c, k) && c.Node? && !c.red && !IsRed(c.left) && !IsRed(c.right)
    requires f.sibling.Node? && !f.sibling.red && !IsRed(f.sibling.left) && !IsRed(f.sibling.right)
    requires f.red || |rest| == 1
    ensures RedBlack(rest + [f.(red := false, sibling := Painted(f.sibling, true))], Painted(c, true), k - 1)
  {
    hide PathBlack, PathProper;
    ColoursEnd(rest, f, k, IsRed(c));
    ColoursEnd(rest, f.(red := false, sibling := Painted(f.sibling, true)), k - 1, true);
    AtTheTop(rest, k, f.red);
    MayBeBlack(rest, f.red);
  }

  lemma AtTheTop(path: seq<Frame>, k: int, red: bool)
    ensures |path| <= 1 ==> PathBlack(path, k) && PathProper(path, red)
  {
  }

  lemma MayBeBlack(path: seq<Frame>, red: bool)
    requires PathProper(path, red)
    ensures PathProper(path, false)
  {
  }

  /** The colours given after a rotation at the parent. */
  function Repainted(r: Tree, last: bool): (t: Tree)
    requires r.Node? && Child(r, last).Node? && Child(Child(r, last), last).Node? && Child(r, !last).Node?
  {
    var low := Child(r, last);
    Make(r.ref, true, r.value, last,
         Make(low.ref, false, low.value, last, Painted(Child(low, last), true), Child(low, !last)),
         Painted(Child(r, !last), false))
  }

  ghost function Sunk(f: Frame, c: Tree): (r: Tree)
    requires f.sibling.Node? && (IsRed(Child(f.sibling, f.dir)) || IsRed(Child(f.sibling, !f.dir)))
  {
    var top := Fill(f, c);
    if IsRed(Child(f.sibling, f.dir)) then RotatedTwice(top, f.dir) else Rotated(top, f.dir)
  }

  lemma SunkShape(f: Frame, c: Tree)
    requires f.sibling.Node? && (IsRed(Child(f.sibling, f.dir)) || IsRed(Child(f.sibling, !f.dir))) && c.Node?
    ensures var r := Sunk(f, c);
            && r.Node? && Child(r, f.dir).Node? && Child(Child(r, f.dir), f.dir) == c && Child(r, !f.dir).Node?
            && Child(r, f.dir).ref == f.ref && Child(r, f.dir).value == f.value
            && Keys(r) == Keys(Fill(f, c))
  {
    hide Keys;
    if IsRed(Child(f.sibling, f.dir)) {
      RotatedTwiceKeys(Fill(f, c), f.dir);
    } else {
      RotatedKeys(Fill(f, c), f.dir);
    }
  }

  /** With the outer nephew red. */
  lemma SunkOnce(f: Frame, c: Tree, k: int)
    requires f.sibling.Node? && !IsRed(Child(f.sibling, f.dir)) && IsRed(Child(f.sibling, !f.dir))
    requires Black(c, k) && Black(f.sibling, k) && Proper(c) && Proper(f.sibling) && !f.sibling.red
    requires c.Node? && !c.red && !IsRed(c.left) && !IsRed(c.right)
    requires var r := Sunk(f, c);
             r.Node? && Child(r, f.dir).Node? && Child(Child(r, f.dir), f.dir) == c && Child(r, !f.dir).Node?
    ensures var t := Repainted(Sunk(f, c), f.dir); t.Node? && Black(t, k) && Proper(t)
  {
    hide Black, Proper;
    var s, last := f.sibling, f.dir;
    Parts(s, last, k);
    PaintedColours(c, k);
    PaintedColours(Child(s, !last), k);
    var low := Make(f.ref, false, f.value, last, Painted(c, true), Child(s, last));
    assert Repainted(Sunk(f, c), last) == Make(s.ref, true, s.value, last, low, Painted(Child(s, !last), false));
    MadeColours(f.ref, false, f.value, last, Painted(c, true), Child(s, last), k - 1);
    MadeColours(s.ref, true, s.value, last, low, Painted(Child(s, !last), false), k);
  }

  /** With the inner nephew red. */
  lemma SunkTwice(f: Frame, c: Tree, k: int)
    requires f.sibling.Node? && IsRed(Child(f.sibling, f.dir))
    requires Black(c, k) && Black(f.sibling, k) && Proper(c) && Proper(f.sibling) && !f.sibling.red
    requires c.Node? && !c.red && !IsRed(c.left) && !IsRed(c.right)
    requires var r := Sunk(f, c);
             r.Node? && Child(r, f.dir).Node? && Child(Child(r, f.dir), f.dir) == c && Child(r, !f.dir).Node?
    ensures var t := Repainted(Sunk(f, c), f.dir); t.Node? && Black(t, k) && Proper(t)
  {
    hide Black, Proper;
    var s, last := f.sibling, f.dir;
    var x := Child(s, last);
    Parts(s, last, k);
    Parts(x, last, k - 1);
    PaintedColours(c, k);
    var low := Make(f.ref, false, f.value, last, Painted(c, true), Child(x, last));
    var high := Make(s.ref, false, s.value, last, Child(x, !last), Child(s, !last));
    assert Repainted(Sunk(f, c), last) == Make(x.ref, true, x.value, last, low, high);
    MadeColours(f.ref, false, f.value, last, Painted(c, true), Child(x, last), k - 1);
    MadeColours(s.ref, false, s.value, last, Child(x, !last), Child(s, !last), k - 1);
    MadeColours(x.ref, true, x.value, last, low, high, k);
  }

  lemma PaintedColours(t: Tree, k: int)
    requires t.Node? && Proper(t)
    ensures !t.red && Black(t, k) ==> Black(Painted(t, true), k - 1)
    ensures !t.red && !IsRed(t.left) && !IsRed(t.right) ==> Proper(Painted(t, true))
    ensures t.red && Black(t, k - 1) ==> Black(Painted(t, false), k)
    ensures Proper(Painted(t, false))
  {
  }

  lemma RepaintedRoot(r: Tree, last: bool)
    requires r.Node? && Child(r, last).Node? && Child(Child(r, last), last).Node? && Child(r, !last).Node?
    ensures IsRed(Repainted(r, last)) && Repainted(r, last).ref == r.ref && Repainted(r, last).value == r.value
  {
  }

  lemma SinkDown(rest: seq<Frame>, f: Frame, c: Tree, k: int)
    requires rest != [] && RedBlack(rest + [f], c, k) && c.Node? && !c.red && !IsRed(c.left) && !IsRed(c.right)
    requires f.sibling.Node? && !f.sibling.red && (IsRed(Child(f.sibling, f.dir)) || IsRed(Child(f.sibling, !f.dir)))
    requires f.red || |rest| == 1
    ensures var r := Sunk(f, c);
            && r.Node? && Child(r, f.dir).Node? && Child(Child(r, f.dir), f.dir) == c && Child(r, !f.dir).Node?
            && RedBlack(rest, Repainted(r, f.dir), k)
  {
    hide PathBlack, PathProper, Black, Proper, Keys, Sunk, Repainted;
    ColoursEnd(rest, f, k, false);
    AtTheTop(rest, k, true);
    SunkShape(f, c);
    RepaintedRoot(Sunk(f, c), f.dir);
    if IsRed(Child(f.sibling, f.dir)) {
      SunkTwice(f, c, k);
    } else {
      SunkOnce(f, c, k);
    }
  }

  lemma PaintedKeys(t: Tree, red: bool)
    requires t.Node?
    ensures Keys(Painted(t, red)) == Keys(t) && Refs(Painted(t, red)) == Refs(t)
  {
  }

  lemma RepaintedKeys(r: Tree, last: bool)
    requires r.Node? && Child(r, last).Node? && Child(Child(r, last), last).Node? && Child(r, !last).Node?
    ensures Keys(Repainted(r, last)) == Keys(r)
  {
    PaintedKeys(Child(Child(r, last), last), true);
    PaintedKeys(Child(r, !last), false);
  }

  // ---------------------------------------------------------------------------
  // Painting in memory
  // ---------------------------------------------------------------------------

  function WithChild(t: Tree, d: bool, c: Tree): (r: Tree)
    requires t.Node?
  {
    Make(t.ref, t.red, t.value, d, c, Child(t, !d))
  }

  lemma PaintRoot(h: Heap, path: seq<Frame>, t: Tree, red: bool)
    requires At(h, path, t) && t.Node?
    ensures t.ref in h && At(h[t.ref := h[t.ref].(red := red)], path, Painted(t, red))
    ensures Refs(Painted(t, red)) == Refs(t) && t.ref in Refs(t)
  {
    hide HoldsPath, PathRefs, Unique, Holds, Refs, At;
    AtMeans(h, path, t);
    HoldsNode(h, t);
    var h' := h[t.ref := h[t.ref].(red := red)];
    OwnRef(t);
    HoldsElsewhere(h, h', t.left);
    HoldsElsewhere(h, h', t.right);
    HoldsNode(h', Painted(t, red));
    InPlace(h, h', path, t, Painted(t, red));
  }

  lemma OwnRef(t: Tree)
    requires t.Node? && Unique(Refs(t))
    ensures t.ref !in Refs(t.left) && t.ref !in Refs(t.right) && t.ref in Refs(t)
  {
    hide Unique;
    UniqueSplit(multiset{t.ref}, Refs(t.left) + Refs(t.right));
    assert Refs(t) == multiset{t.ref} + (Refs(t.left) + Refs(t.right));
  }

  lemma PaintChild(h: Heap, path: seq<Frame>, t: Tree, d: bool, red: bool)
    requires At(h, path, t) && t.Node? && Child(t, d).Node?
    ensures var x, r := Child(t, d).ref, WithChild(t, d, Painted(Child(t, d), red));
            x in h && At(h[x := h[x].(red := red)], path, r) && Refs(r) == Refs(t) && x in Refs(t)
  {
    hide At, Refs, PathRefs, Child, Make, Fill, FrameOf;
    var c, f := Child(t, d), FrameOf(t, d);
    Down(h, path, t, d);
    PaintRoot(h, path + [f], c, red);
    Up(h[c.ref := h[c.ref].(red := red)], path, f, Painted(c, red));
    Filled(t, d, Painted(c, red));
    RefsOf(t, d);
    RefsOf(WithChild(t, d, Painted(c, red)), d);
  }

  lemma Filled(t: Tree, d: bool, c: Tree)
    requires t.Node?
    ensures Fill(FrameOf(t, d), c) == WithChild(t, d, c) && WithChild(t, d, c).Node? && WithChild(t, d, c).ref == t.ref
    ensures Child(WithChild(t, d, c), d) == c && Child(WithChild(t, d, c), !d) == Child(t, !d)
  {
  }

  lemma PaintGrandchild(h: Heap, path: seq<Frame>, t: Tree, d: bool, red: bool)
    requires At(h, path, t) && t.Node? && Child(t, d).Node? && Child(Child(t, d), d).Node?
    ensures var c := Child(t, d);
            var x, r := Child(c, d).ref, WithChild(t, d, WithChild(c, d, Painted(Child(c, d), red)));
            x in h && At(h[x := h[x].(red := red)], path, r) && Refs(r) == Refs(t) && x in Refs(t)
  {
    hide At, Refs, PathRefs, Child, Make, Fill, FrameOf, WithChild;
    var c, f := Child(t, d), FrameOf(t, d);
    var c' := WithChild(c, d, Painted(Child(c, d), red));
    Down(h, path, t, d);
    PaintChild(h, path + [f], c, d, red);
    var x := Child(c, d).ref;
    Up(h[x := h[x].(red := red)], path, f, c');
    Filled(t, d, c');
    RefsOf(t, d);
    RefsOf(WithChild(t, d, c'), d);
  }

  // ---------------------------------------------------------------------------
  // The three ways of pushing
  // ---------------------------------------------------------------------------

  lemma OnlyOne(h: Heap, h': Heap, all: multiset<RbNode>, x: RbNode, c: Cell)
    requires OnlyIn(h, h', all) && x in all && x in h'
    ensures OnlyIn(h, h'[x := c], all)
  {
  }

  method PushRotate(p: RbNode, q: RbNode, last: bool, dir: bool, ghost U: set<RbNode>, ghost path: seq<Frame>,
                    ghost c: Tree, ghost k: int, ghost keys: seq<int>, ghost all: multiset<RbNode>)
    returns (p': RbNode)
    requires Fits(Snap(U), path, c, k, keys, all) && c.Node? && q == c.ref
    requires p == path[|path| - 1].ref && last == path[|path| - 1].dir
    requires !c.red && !IsRed(Child(c, dir)) && IsRed(Child(c, !dir))
    modifies U
    ensures OnlyIn(old(Snap(U)), Snap(U), all)
    ensures var r := Rotated(c, dir);
            r.Node? && p' == r.ref && Fits(Snap(U), path + [FrameOf(r, dir)], Child(r, dir), k - 1, keys, all)
  {
    hide At, RedBlack, KeysAt, Keys, Refs, PathRefs, Holds, HoldsPath, Unique, Rotated, RotatedCells;
    ghost var h, rest, f, r := Snap(U), path[..|path| - 1], path[|path| - 1], Rotated(c, dir);
    assert path == rest + [f];
    AtMeans(h, path, c);
    RotateDown(path, c, dir, k);
    RotatedHolds(h, c, dir);
    ChildApart(c, !dir);
    p' := Rotate(q, dir, U);
    Relink(h, Snap(U), rest, f, c, r);
    SetLink(p, last, p', U);
    SameKeysAt(path, c, r);
    LinkedOnly(h, Snap(U), path, c, r, all);
    FitsBelow(Snap(U), path, r, k, keys, all, dir);
    RotatedBlack(c, dir);
  }

  lemma RotatedBlack(t: Tree, dir: bool)
    requires t.Node? && Child(t, !dir).Node?
    ensures Rotated(t, dir).Node? && !Rotated(t, dir).red
  {
  }

  lemma ChildApart(t: Tree, d: bool)
    requires t.Node? && Child(t, d).Node? && Unique(Refs(t))
    ensures t.ref != Child(t, d).ref
  {
    hide Unique;
    OwnRef(t);
    RootIn(Child(t, d));
  }

  lemma LinkedOnly(h: Heap, h': Heap, path: seq<Frame>, c: Tree, r: Tree, all: multiset<RbNode>)
    requires PathRefs(path) + Refs(c) == all && h'.Keys == h.Keys
    requires path != [] && forall z :: z in h && z !in Refs(c) && z != path[|path| - 1].ref ==> h'[z] == h[z]
    ensures OnlyIn(h, h', all)
  {
    hide PathRefs, Refs;
    assert path == path[..|path| - 1] + [path[|path| - 1]];
    PathEnd(h, path[..|path| - 1], path[|path| - 1], null);
  }

  /** The node, its parent and its sibling change colour. */
  method PushFlip(p: RbNode, q: RbNode, s: RbNode, ghost U: set<RbNode>, ghost rest: seq<Frame>, ghost f: Frame,
                  ghost c: Tree, ghost k: int, ghost keys: seq<int>, ghost all: multiset<RbNode>)
    requires rest != [] && Fits(Snap(U), rest + [f], c, k, keys, all) && c.Node? && q == c.ref && p == f.ref
    requires f.sibling.Node? && s == f.sibling.ref && !f.sibling.red && !IsRed(f.sibling.left) &&
             !IsRed(f.sibling.right)
    requires !c.red && !IsRed(c.left) && !IsRed(c.right) && (f.red || |rest| == 1)
    modifies U
    ensures OnlyIn(old(Snap(U)), Snap(U), all)
    ensures Fits(Snap(U), rest + [f.(red := false, sibling := Painted(f.sibling, true))], Painted(c, true),
                 k - 1, keys, all)
  {
    hide At, RedBlack, KeysAt, Keys, Refs, PathRefs, Fill, Painted, WithChild, Child, OnlyIn;
    ghost var h, top := Snap(U), Fill(f, c);
    FilledParts(f, c);
    Up(h, rest, f, c);
    RefsUp(rest, f, c);
    NothingChanged(h, all);
    PaintRoot(h, rest, top, false);
    InSum(PathRefs(rest), Refs(top), p);
    SetRed(p, false, U);
    OnlyOne(h, h, all, p, Snap(U)[p]);
    ghost var h1, top1 := Snap(U), Painted(top, false);
    PaintedParts(top, false, f.dir);
    PaintChild(h1, rest, top1, !f.dir, true);
    InSum(PathRefs(rest), Refs(top1), s);
    SetRed(s, true, U);
    OnlyOne(h, h1, all, s, Snap(U)[s]);
    ghost var h2, top2 := Snap(U), WithChild(top1, !f.dir, Painted(f.sibling, true));
    Filled(top1, !f.dir, Painted(f.sibling, true));
    PaintChild(h2, rest, top2, f.dir, true);
    InSum(PathRefs(rest), Refs(top2), q);
    SetRed(q, true, U);
    OnlyOne(h, h2, all, q, Snap(U)[q]);
    ghost var f', c' := f.(red := false, sibling := Painted(f.sibling, true)), Painted(c, true);
    FlippedForm(f, c);
    Up(Snap(U), rest, f', c');
    RefsUp(rest, f', c');
    FlipDown(rest, f, c, k);
    FlippedKeysAt(rest, f, c);
  }

  lemma InSum(a: multiset<RbNode>, b: multiset<RbNode>, x: RbNode)
    requires x in b
    ensures x in a + b
  {
  }

  lemma FilledParts(f: Frame, c: Tree)
    ensures var t := Fill(f, c);
            t.Node? && t.ref == f.ref && t.value == f.value && t.red == f.red && Child(t, f.dir) == c &&
            Child(t, !f.dir) == f.sibling
  {
  }

  lemma PaintedParts(t: Tree, red: bool, d: bool)
    requires t.Node?
    ensures var r := Painted(t, red);
            r.Node? && r.ref == t.ref && r.red == red && r.value == t.value && Child(r, d) == Child(t, d) &&
            Child(r, !d) == Child(t, !d)
  {
  }

  lemma FlippedForm(f: Frame, c: Tree)
    requires f.sibling.Node? && c.Node?
    ensures var top := WithChild(Painted(Fill(f, c), false), !f.dir, Painted(f.sibling, true));
            top.Node? &&
            Fill(f.(red := false, sibling := Painted(f.sibling, true)), Painted(c, true)) ==
            WithChild(top, f.dir, Painted(c, true))
  {
  }

  lemma FlippedKeysAt(rest: seq<Frame>, f: Frame, c: Tree)
    requires rest != [] && f.sibling.Node? && c.Node?
    ensures KeysAt(rest + [f.(red := false, sibling := Painted(f.sibling, true))], Painted(c, true)) ==
            KeysAt(rest + [f], c)
  {
    hide KeysAt, Lefts, Rights, Refs;
    KeysUp(rest, f, c);
    KeysUp(rest, f.(red := false, sibling := Painted(f.sibling, true)), Painted(c, true));
    PaintedKeys(c, true);
    PaintedKeys(f.sibling, true);
    SameKeysAt(rest, Fill(f, c), Fill(f.(red := false, sibling := Painted(f.sibling, true)), Painted(c, true)));
  }

  method Repaint(top: RbNode, q: RbNode, ghost U: set<RbNode>, ghost rest: seq<Frame>, ghost r: Tree, ghost last: bool,
                 ghost all: multiset<RbNode>)
    requires At(Snap(U), rest, r) && PathRefs(rest) + Refs(r) == all && r.Node? && top == r.ref
    requires Child(r, last).Node? && Child(Child(r, last), last).Node? && Child(r, !last).Node?
    requires q == Child(Child(r, last), last).ref
    modifies U
    ensures At(Snap(U), rest, Repainted(r, last)) && OnlyIn(old(Snap(U)), Snap(U), all)
    ensures PathRefs(rest) + Refs(Repainted(r, last)) == all
  {
    hide At, Refs, PathRefs, Painted, WithChild, Child, OnlyIn, Make, Repainted;
    ghost var h := Snap(U);
    NothingChanged(h, all);
    PaintRoot(h, rest, r, true);
    InSum(PathRefs(rest), Refs(r), top);
    SetRed(top, true, U);
    OnlyOne(h, h, all, top, Snap(U)[top]);
    ghost var h1, r1 := Snap(U), Painted(r, true);
    PaintedParts(r, true, last);
    PaintGrandchild(h1, rest, r1, last, true);
    InSum(PathRefs(rest), Refs(r1), q);
    SetRed(q, true, U);
    OnlyOne(h, h1, all, q, Snap(U)[q]);
    ghost var low := Child(r, last);
    ghost var low' := WithChild(low, last, Painted(Child(low, last), true));
    ghost var h2, r2 := Snap(U), WithChild(r1, last, low');
    Filled(r1, last, low');
    Filled(low, last, Painted(Child(low, last), true));
    BothSides(r2, last);
    HoldsLinks(h2, rest, r2);
    PaintChild(h2, rest, r2, false, false);
    var x := top.left;
    InSum(PathRefs(rest), Refs(r2), x);
    SetRed(x, false, U);
    OnlyOne(h, h2, all, x, Snap(U)[x]);
    ghost var h3, r3 := Snap(U), WithChild(r2, false, Painted(Child(r2, false), false));
    Filled(r2, false, Painted(Child(r2, false), false));
    HoldsLinks(h3, rest, r3);
    PaintChild(h3, rest, r3, true, false);
    var y := top.right;
    InSum(PathRefs(rest), Refs(r3), y);
    SetRed(y, false, U);
    OnlyOne(h, h3, all, y, Snap(U)[y]);
    RepaintedForm(r, last);
  }

  lemma BothSides(t: Tree, d: bool)
    requires t.Node? && Child(t, d).Node? && Child(t, !d).Node?
    ensures Child(t, false).Node? && Child(t, true).Node?
  {
  }

  lemma HoldsLinks(h: Heap, path: seq<Frame>, t: Tree)
    requires At(h, path, t) && t.Node?
    ensures t.ref in h && h[t.ref].left == RefOf(Child(t, false)) && h[t.ref].right == RefOf(Child(t, true))
  {
  }

  lemma RepaintedForm(r: Tree, last: bool)
    requires r.Node? && Child(r, last).Node? && Child(Child(r, last), last).Node? && Child(r, !last).Node?
    ensures var low := Child(r, last);
            var r2 := WithChild(Painted(r, true), last, WithChild(low, last, Painted(Child(low, last), true)));
            r2.Node? && Child(r2, false).Node? &&
            var r3 := WithChild(r2, false, Painted(Child(r2, false), false));
            r3.Node? && Child(r3, true).Node? &&
            WithChild(r3, true, Painted(Child(r3, true), false)) == Repainted(r, last)
  {
  }

  /** The rotation at the parent, when the sibling has a red child. */
  method PushSink(g: RbNode, p: RbNode, q: RbNode, s: RbNode, last: bool, ghost U: set<RbNode>, ghost rest: seq<Frame>,
                  ghost f: Frame, ghost c: Tree, ghost k: int, ghost keys: seq<int>, ghost all: multiset<RbNode>)
    requires rest != [] && Fits(Snap(U), rest + [f], c, k, keys, all) && c.Node? && q == c.ref && p == f.ref &&
             last == f.dir
    requires g == rest[|rest| - 1].ref
    requires f.sibling.Node? && s == f.sibling.ref && !f.sibling.red &&
             (IsRed(f.sibling.left) || IsRed(f.sibling.right))
    requires !c.red && !IsRed(c.left) && !IsRed(c.right) && (f.red || |rest| == 1)
    modifies U
    ensures OnlyIn(old(Snap(U)), Snap(U), all)
    ensures var r := Sunk(f, c);
            && r.Node? && Child(r, f.dir).Node? && Child(Child(r, f.dir), f.dir) == c && Child(r, !f.dir).Node?
            && Fits(Snap(U), rest, Repainted(r, f.dir), k, keys, all)
  {
    hide At, RedBlack, KeysAt, Keys, Refs, PathRefs, Fill, OnlyIn, Repainted, Rotated, RotatedTwice, RotatedCells,
         RotatesTwice, Holds, HoldsPath, Unique, Sunk;
    ghost var h, top := Snap(U), Fill(f, c);
    ghost var above, fg := rest[..|rest| - 1], rest[|rest| - 1];
    assert rest == above + [fg];
    FilledParts(f, c);
    Up(h, rest, f, c);
    RefsUp(rest, f, c);
    AtMeans(h, rest, top);
    Parent(h, above, fg, top);
    SiblingLinks(h, rest, f, c);
    SinkDown(rest, f, c, k);
    SunkShape(f, c);
    ghost var r := Sunk(f, c);
    var dir2 := g.right == p;
    var y;
    if IsRedNode(Link(s, last)) {
      y := Rotate2(p, last, U, top);
      RotatedTwiceHolds(h, top, last, Snap(U));
      RotatedTwiceRoot(top, last);
    } else {
      RotatedHolds(h, top, last);
      ChildApart(top, !last);
      y := Rotate(p, last, U);
      RotatedRoot(top, last);
    }
    SunkIs(f, c);
    Relink(h, Snap(U), above, fg, top, r);
    ghost var h1 := Snap(U);
    SetLink(g, dir2, y, U);
    LinkedOnly(h, Snap(U), rest, top, r, all);
    ghost var h2 := Snap(U);
    Repaint(y, q, U, rest, r, last, all);
    OnlyTwice(h, h2, Snap(U), all);
    RepaintedKeys(r, last);
    SunkKeysAt(rest, f, c, Repainted(r, last));
  }

  lemma SunkIs(f: Frame, c: Tree)
    requires f.sibling.Node? && (IsRed(Child(f.sibling, f.dir)) || IsRed(Child(f.sibling, !f.dir)))
    ensures var top := Fill(f, c);
            && top.Node? && Child(top, !f.dir).Node?
            && if IsRed(Child(f.sibling, f.dir)) then
                 Child(Child(top, !f.dir), f.dir).Node? && Sunk(f, c) == RotatedTwice(top, f.dir)
               else Sunk(f, c) == Rotated(top, f.dir)
  {
  }

  lemma OnlyTwice(h: Heap, h1: Heap, h2: Heap, all: multiset<RbNode>)
    requires OnlyIn(h, h1, all) && OnlyIn(h1, h2, all)
    ensures OnlyIn(h, h2, all)
  {
  }

  lemma SiblingLinks(h: Heap, rest: seq<Frame>, f: Frame, c: Tree)
    requires At(h, rest + [f], c) && f.sibling.Node?
    ensures var s := f.sibling;
            && s.ref in h && LinkOf(h[s.ref], f.dir) == RefOf(Child(s, f.dir)) &&
               LinkOf(h[s.ref], !f.dir) == RefOf(Child(s, !f.dir))
            && (Child(s, f.dir).Node? ==> Child(s, f.dir).ref in h && h[Child(s, f.dir).ref].red == Child(s, f.dir).red)
            && (Child(s, !f.dir).Node? ==>
                  Child(s, !f.dir).ref in h && h[Child(s, !f.dir).ref].red == Child(s, !f.dir).red)
            && f.ref in h && LinkOf(h[f.ref], !f.dir) == s.ref
  {
    hide HoldsPath, PathRefs, Refs, Unique;
    PathEnd(h, rest, f, RefOf(c));
    ChildColours(h, f.sibling);
  }

  lemma SunkKeysAt(rest: seq<Frame>, f: Frame, c: Tree, t: Tree)
    requires rest != [] && Keys(t) == Keys(Fill(f, c))
    ensures KeysAt(rest, t) == KeysAt(rest + [f], c)
  {
    hide KeysAt, Keys, Fill;
    KeysUp(rest, f, c);
    SameKeysAt(rest, Fill(f, c), t);
  }

  // ---------------------------------------------------------------------------
  // The way down
  // ---------------------------------------------------------------------------

  /** `x` is the node with the value, if it has been met. */
  ghost predicate Found(path: seq<Frame>, q: Tree, v: int, x: RbNode?) {
    if x == null then (forall i :: 1 <= i < |path| ==> path[i].value != v) && (q.Node? ==> q.value != v)
    else (exists i :: 1 <= i < |path| && path[i].ref == x && path[i].value == v) ||
         (q.Node? && q.ref == x && q.value == v)
  }

  /** Where the pass is after the work on `q`, with `dir` the way on. */
  ghost predicate InRemoval(h: Heap, path: seq<Frame>, q: Tree, k: int, dir: bool, v: int, keys: seq<int>,
                            all: multiset<RbNode>, x: RbNode?) {
    && Fits(h, path, q, k, keys, all) && Way(path, v) && Lucky(path, q, dir) && dir == (q.value < v) &&
       Found(path, q, v, x)
  }

  /** What is known when the pass comes to `c`: the parent is red, or `c` is, or the parent is the root. */
  ghost predicate Entering(path: seq<Frame>, c: Tree) {
    |path| >= 2 ==>
      var f := path[|path| - 1];
      f.red || IsRed(c) || (|path| == 2 && !IsRed(f.sibling))
  }

  lemma SideOf(t: Tree, d: bool, y: int)
    requires t.Node? && Ascending(Keys(t)) && y in Keys(Child(t, d))
    ensures if d then t.value < y else y < t.value
  {
    var a, b, s := Keys(t.left), Keys(t.right), Keys(t);
    assert s[|a|] == t.value;
    if d {
      var i :| 0 <= i < |b| && b[i] == y;
      assert s[|a| + 1 + i] == y;
    } else {
      var i :| 0 <= i < |a| && a[i] == y;
      assert s[i] == y;
    }
  }

  lemma RootKey(t: Tree)
    requires t.Node?
    ensures t.value in Keys(t)
  {
    assert Keys(t)[|Keys(t.left)|] == t.value;
  }

  lemma AscendingHere(path: seq<Frame>, t: Tree)
    requires Ascending(KeysAt(path, t))
    ensures Ascending(Keys(t))
  {
    AscendingParts(Lefts(path), Keys(t), Rights(path));
  }

  /** The node rotated to the top lies on the side the way leads away from. */
  lemma RotateWay(path: seq<Frame>, c: Tree, d: bool, v: int)
    requires Ascending(KeysAt(path, c)) && c.Node? && Child(c, !d).Node? && d == (c.value < v)
    ensures var y := Child(c, !d).value; y != v && (y < v <==> d)
  {
    AscendingHere(path, c);
    RootKey(Child(c, !d));
    SideOf(c, !d, Child(c, !d).value);
  }

  lemma SinkWay(rest: seq<Frame>, f: Frame, c: Tree, v: int)
    requires rest != [] && Ascending(KeysAt(rest + [f], c)) && (f.value < v <==> f.dir) && c.Node?
    requires f.sibling.Node? && (IsRed(Child(f.sibling, f.dir)) || IsRed(Child(f.sibling, !f.dir)))
    ensures var r := Sunk(f, c); r.Node? && r.value != v && (r.value < v <==> f.dir)
  {
    hide KeysAt, Ascending, Lefts, Rights, Keys;
    KeysUp(rest, f, c);
    AscendingHere(rest, Fill(f, c));
    RootKey(f.sibling);
    InnerKey(f.sibling, f.dir);
    FilledParts(f, c);
    SunkValue(f, c);
    SideOf(Fill(f, c), !f.dir, Sunk(f, c).value);
  }

  lemma InnerKey(t: Tree, d: bool)
    requires t.Node?
    ensures Child(t, d).Node? ==> Child(t, d).value in Keys(t)
  {
    if Child(t, d).Node? {
      RootKey(Child(t, d));
    }
  }

  lemma SunkValue(f: Frame, c: Tree)
    requires f.sibling.Node? && (IsRed(Child(f.sibling, f.dir)) || IsRed(Child(f.sibling, !f.dir)))
    ensures var r := Sunk(f, c);
            r.Node? &&
            r.value == if IsRed(Child(f.sibling, f.dir)) then Child(f.sibling, f.dir).value else f.sibling.value
  {
  }

  /** More frames, none of them with the value. */
  lemma StillFound(path: seq<Frame>, q: Tree, v: int, x: RbNode?, f: Frame, q': Tree)
    requires Found(path, q, v, x) && f.value != v && q.Node? && q'.Node? && q'.ref == q.ref && q'.value == q.value
    ensures Found(path + [f], q', v, x)
  {
    var path' := path + [f];
    assert forall i :: 0 <= i < |path| ==> path'[i] == path[i];
    if x != null && q.ref != x {
      var i :| 1 <= i < |path| && path[i].ref == x && path[i].value == v;
      assert path'[i].ref == x;
    }
  }

  lemma WayOn(path: seq<Frame>, v: int, f: Frame)
    requires Way(path, v) && (f.value < v <==> f.dir)
    ensures Way(path + [f], v)
  {
  }

  lemma AfterRotate(h: Heap, path: seq<Frame>, c: Tree, k: int, d: bool, v: int, keys: seq<int>, all: multiset<RbNode>,
                    x: RbNode?)
    requires path != [] && RedBlack(path, c, k) && c.Node? && !c.red && !IsRed(Child(c, d)) && IsRed(Child(c, !d))
    requires Way(path, v) && Found(path, c, v, x) && Ascending(KeysAt(path, c)) && d == (c.value < v)
    requires var r := Rotated(c, d); r.Node? && Fits(h, path + [FrameOf(r, d)], Child(r, d), k - 1, keys, all)
    ensures var r := Rotated(c, d);
            && InRemoval(h, path + [FrameOf(r, d)], Child(r, d), k - 1, d, v, keys, all, x)
            && Child(r, d).Node? && Child(r, d).ref == c.ref && Child(Child(r, d), d) == Child(c, d)
  {
    hide Fits, Way, Found, RedBlack, KeysAt, Keys, Rotated, Ascending;
    RotateDown(path, c, d, k);
    RotateWay(path, c, d, v);
    var r := Rotated(c, d);
    WayOn(path, v, FrameOf(r, d));
    StillFound(path, c, v, x, FrameOf(r, d), Child(r, d));
  }

  lemma AfterFlip(h: Heap, rest: seq<Frame>, f: Frame, c: Tree, k: int, d: bool, v: int, keys: seq<int>,
                  all: multiset<RbNode>, x: RbNode?)
    requires rest != [] && c.Node? && f.sibling.Node? && Way(rest + [f], v) && Found(rest + [f], c, v, x) &&
             d == (c.value < v)
    requires Fits(h, rest + [f.(red := false, sibling := Painted(f.sibling, true))], Painted(c, true), k - 1, keys, all)
    ensures InRemoval(h, rest + [f.(red := false, sibling := Painted(f.sibling, true))], Painted(c, true),
                      k - 1, d, v, keys, all, x)
  {
    hide Fits;
    var path, path' := rest + [f], rest + [f.(red := false, sibling := Painted(f.sibling, true))];
    assert forall i :: 0 <= i < |path| ==>
                         path'[i].value == path[i].value && path'[i].dir == path[i].dir && path'[i].ref == path[i].ref;
    if x != null && c.ref != x {
      var i :| 1 <= i < |path| && path[i].ref == x && path[i].value == v;
      assert path'[i].ref == x;
    }
  }

  /** The path after the rotation at the parent. */
  ghost function SunkPath(rest: seq<Frame>, t: Tree, last: bool): (path: seq<Frame>)
    requires t.Node? && Child(t, last).Node?
  {
    rest + [FrameOf(t, last)] + [FrameOf(Child(t, last), last)]
  }

  lemma AfterSink(h: Heap, rest: seq<Frame>, f: Frame, c: Tree, k: int, d: bool, v: int, keys: seq<int>,
                  all: multiset<RbNode>, x: RbNode?)
    requires rest != [] && c.Node? && Way(rest + [f], v) && Found(rest + [f], c, v, x) && d == (c.value < v)
    requires f.sibling.Node? && (IsRed(Child(f.sibling, f.dir)) || IsRed(Child(f.sibling, !f.dir)))
    requires Ascending(KeysAt(rest + [f], c))
    requires var r := Sunk(f, c);
             && r.Node? && Child(r, f.dir).Node? && Child(Child(r, f.dir), f.dir) == c && Child(r, !f.dir).Node?
             && Fits(h, rest, Repainted(r, f.dir), k, keys, all)
    ensures var t := Repainted(Sunk(f, c), f.dir);
            && t.Node? && Child(t, f.dir).Node? && Child(t, f.dir).ref == f.ref
            && InRemoval(h, SunkPath(rest, t, f.dir), Painted(c, true), k - 1, d, v, keys, all, x)
  {
    hide Fits, Way, Found, RedBlack, KeysAt, Keys, Ascending, Sunk;
    var r := Sunk(f, c);
    var t := Repainted(r, f.dir);
    WayAbove(rest, f, v);
    SunkShape(f, c);
    SinkWay(rest, f, c, v);
    RepaintedParts(r, f.dir);
    var low := Child(t, f.dir);
    FitsBelow(h, rest, t, k, keys, all, f.dir);
    FitsBelow(h, rest + [FrameOf(t, f.dir)], low, k, keys, all, f.dir);
    WayOn(rest, v, FrameOf(t, f.dir));
    WayOn(rest + [FrameOf(t, f.dir)], v, FrameOf(low, f.dir));
    FoundAround(rest, f, c, v, x, FrameOf(t, f.dir), FrameOf(low, f.dir), Painted(c, true));
  }

  lemma WayAbove(rest: seq<Frame>, f: Frame, v: int)
    requires rest != [] && Way(rest + [f], v)
    ensures Way(rest, v) && (f.value < v <==> f.dir)
  {
    assert (rest + [f])[|rest|] == f;
    assert forall i :: 0 <= i < |rest| ==> (rest + [f])[i] == rest[i];
  }

  lemma RepaintedParts(r: Tree, last: bool)
    requires r.Node? && Child(r, last).Node? && Child(Child(r, last), last).Node? && Child(r, !last).Node?
    ensures var t := Repainted(r, last);
            && t.Node? && t.red && t.value == r.value && Child(t, last).Node? && !Child(t, last).red
            && Child(t, last).ref == Child(r, last).ref && Child(t, last).value == Child(r, last).value
            && Child(Child(t, last), last) == Painted(Child(Child(r, last), last), true)
  {
  }

  lemma FoundAround(rest: seq<Frame>, f: Frame, c: Tree, v: int, x: RbNode?, new1: Frame, new2: Frame, c': Tree)
    requires rest != [] && Found(rest + [f], c, v, x) && new1.value != v && new2.ref == f.ref && new2.value == f.value
    requires c.Node? && c'.Node? && c'.ref == c.ref && c'.value == c.value
    ensures Found(rest + [new1] + [new2], c', v, x)
  {
    var path, path' := rest + [f], rest + [new1] + [new2];
    assert forall i :: 0 <= i < |rest| ==> path'[i] == path[i];
    assert path[|rest|] == f && path'[|rest|] == new1 && path'[|rest| + 1] == new2;
    if x != null && !(c.ref == x && c.value == v) {
      var i :| 1 <= i < |path| && path[i].ref == x && path[i].value == v;
      assert path'[if i < |rest| then i else |rest| + 1].ref == x;
    }
  }

  /** Nothing to push: the node or the next one is red, or it is the root. */
  lemma AfterNothing(h: Heap, path: seq<Frame>, c: Tree, k: int, d: bool, v: int, keys: seq<int>,
                     all: multiset<RbNode>, x: RbNode?)
    requires Fits(h, path, c, k, keys, all) && Way(path, v) && Found(path, c, v, x) && c.Node? && d == (c.value < v)
    requires IsRed(c) || IsRed(Child(c, d)) || (|path| == 1 && !IsRed(c.left) && !IsRed(c.right))
    ensures InRemoval(h, path, c, k, d, v, keys, all, x)
  {
  }

  /** A black node below the root has a sibling, and that is black here. */
  lemma Sibling(rest: seq<Frame>, f: Frame, c: Tree, k: int)
    requires rest != [] && RedBlack(rest + [f], c, k) && c.Node? && !c.red && Entering(rest + [f], c)
    ensures f.sibling.Node? && !f.sibling.red && (f.red || |rest| == 1)
  {
    ColoursEnd(rest, f, k, false);
    BlackHeight(c, k);
  }

  lemma {:induction false} BlackHeight(t: Tree, k: int)
    requires Black(t, k)
    ensures k >= 0 && (t.Node? && !t.red ==> k >= 1)
  {
    if t.Node? {
      BlackHeight(t.left, k - Shade(t.red));
    }
  }

  /** The node and its children are black: its parent gives it the red colour. */
  method PushSibling(g: RbNode?, p: RbNode, q: RbNode, s: RbNode, last: bool, ghost U: set<RbNode>,
                     ghost rest: seq<Frame>,
                     ghost f: Frame, ghost c: Tree, ghost k: int, ghost dir: bool, ghost v: int, ghost keys: seq<int>,
                     ghost all: multiset<RbNode>, ghost x: RbNode?, ghost hf: Frame)
    returns (ghost path': seq<Frame>, ghost c': Tree, ghost k': int)
    requires FirstIs(rest, hf) && Fits(Snap(U), rest + [f], c, k, keys, all) && Ascending(keys) &&
             g == rest[|rest| - 1].ref
    requires c.Node? && q == c.ref && p == f.ref && last == f.dir && s == RefOf(f.sibling)
    requires Entering(rest + [f], c) && Way(rest + [f], v) && Found(rest + [f], c, v, x) && dir == (c.value < v)
    requires !c.red && !IsRed(c.left) && !IsRed(c.right)
    modifies U
    ensures OnlyIn(old(Snap(U)), Snap(U), all)
    ensures InRemoval(Snap(U), path', c', k', dir, v, keys, all, x) && FirstIs(path', hf)
    ensures c' == Painted(c, true) && p == path'[|path'| - 1].ref
  {
    hide Fits, OnlyIn, RedBlack, KeysAt, Keys, Ascending, Way, Found, InRemoval, Entering, Rotated, Sunk, Repainted, At;
    ghost var h := Snap(U);
    FitsMeans(h, rest + [f], c, k, keys, all);
    Sibling(rest, f, c, k);
    SiblingLinks(h, rest, f, c);
    BothChildren(f.sibling, last);
    c', k' := Painted(c, true), k - 1;
    if !IsRedNode(Link(s, !last)) && !IsRedNode(Link(s, last)) {
      PushFlip(p, q, s, U, rest, f, c, k, keys, all);
      AfterFlip(Snap(U), rest, f, c, k, dir, v, keys, all, x);
      path' := rest + [f.(red := false, sibling := Painted(f.sibling, true))];
    } else {
      PushSink(g, p, q, s, last, U, rest, f, c, k, keys, all);
      AfterSink(Snap(U), rest, f, c, k, dir, v, keys, all, x);
      path' := SunkPath(rest, Repainted(Sunk(f, c), f.dir), f.dir);
    }
  }

  /** The work on one node of the way. */
  method Push(g: RbNode?, p: RbNode, q: RbNode, last: bool, dir: bool, ghost U: set<RbNode>, ghost path: seq<Frame>,
              ghost c: Tree,
              ghost k: int, ghost v: int, ghost keys: seq<int>, ghost all: multiset<RbNode>, ghost x: RbNode?,
              ghost hf: Frame)
    returns (p': RbNode, ghost path': seq<Frame>, ghost c': Tree, ghost k': int)
    requires Fits(Snap(U), path, c, k, keys, all) && FirstIs(path, hf) && hf.sibling == Leaf && Ascending(keys)
    requires c.Node? && q == c.ref && p == path[|path| - 1].ref && last == path[|path| - 1].dir
    requires |path| >= 2 ==> g == path[|path| - 2].ref
    requires Entering(path, c) && Way(path, v) && Found(path, c, v, x) && dir == (c.value < v)
    modifies U
    ensures OnlyIn(old(Snap(U)), Snap(U), all)
    ensures InRemoval(Snap(U), path', c', k', dir, v, keys, all, x) && FirstIs(path', hf)
    ensures c'.Node? && c'.ref == q && p' == path'[|path'| - 1].ref && Child(c', dir) == Child(c, dir)
  {
    hide Fits, OnlyIn, RedBlack, KeysAt, Keys, Ascending, Way, Found, InRemoval, Entering, Rotated, Sunk, Repainted, At,
         Painted;
    ghost var h, rest, f := Snap(U), path[..|path| - 1], path[|path| - 1];
    assert path == rest + [f];
    FitsMeans(h, path, c, k, keys, all);
    ColoursInMemory(h, path, c, dir);
    BothChildren(c, dir);
    PaintedChild(c, dir);
    NothingChanged(h, all);
    p', path', c', k' := p, path, c, k;
    if !IsRedNode(q) && !IsRedNode(Link(q, dir)) {
      if IsRedNode(Link(q, !dir)) {
        p' := PushRotate(p, q, last, dir, U, path, c, k, keys, all);
        AfterRotate(Snap(U), path, c, k, dir, v, keys, all, x);
        ghost var r := Rotated(c, dir);
        path', c', k' := path + [FrameOf(r, dir)], Child(r, dir), k - 1;
      } else {
        var s := Link(p, !last);
        OtherLink(h, rest, f, c);
        if s != null {
          path', c', k' := PushSibling(g, p, q, s, last, U, rest, f, c, k, dir, v, keys, all, x, hf);
        } else {
          OnlyTheRoot(rest, f, c, k);
          AfterNothing(h, path, c, k, dir, v, keys, all, x);
        }
      }
    } else {
      AfterNothing(h, path, c, k, dir, v, keys, all, x);
    }
  }

  lemma PaintedChild(c: Tree, d: bool)
    requires c.Node?
    ensures var r := Painted(c, true); r.Node? && r.ref == c.ref && Child(r, d) == Child(c, d)
  {
  }

  lemma ColoursInMemory(h: Heap, path: seq<Frame>, c: Tree, d: bool)
    requires At(h, path, c) && c.Node?
    ensures c.ref in h && h[c.ref].red == c.red
    ensures LinkOf(h[c.ref], d) == RefOf(Child(c, d)) && LinkOf(h[c.ref], !d) == RefOf(Child(c, !d))
    ensures Child(c, d).Node? ==> Child(c, d).ref in h && h[Child(c, d).ref].red == Child(c, d).red
    ensures Child(c, !d).Node? ==> Child(c, !d).ref in h && h[Child(c, !d).ref].red == Child(c, !d).red
  {
    AtMeans(h, path, c);
    ChildColours(h, c);
  }

  lemma BothChildren(t: Tree, d: bool)
    requires t.Node?
    ensures IsRed(t.left) || IsRed(t.right) <==> IsRed(Child(t, d)) || IsRed(Child(t, !d))
  {
  }

  lemma OtherLink(h: Heap, rest: seq<Frame>, f: Frame, c: Tree)
    requires At(h, rest + [f], c)
    ensures f.ref in h && LinkOf(h[f.ref], !f.dir) == RefOf(f.sibling)
  {
    PathEnd(h, rest, f, RefOf(c));
  }

  /** Only the root has no sibling. */
  lemma OnlyTheRoot(rest: seq<Frame>, f: Frame, c: Tree, k: int)
    requires RedBlack(rest + [f], c, k) && c.Node? && !c.red && f.sibling == Leaf
    ensures rest == []
  {
    if rest != [] {
      ColoursEnd(rest, f, k, false);
      BlackHeight(c, k);
    }
  }

  // ---------------------------------------------------------------------------
  // The end of the way
  // ---------------------------------------------------------------------------

  /** The pass ends at a red node without children, or at the root on its own. */
  lemma LastNode(path: seq<Frame>, q: Tree, k: int, dir: bool)
    requires RedBlack(path, q, k) && Lucky(path, q, dir) && Child(q, dir) == Leaf
    ensures q.left == Leaf && q.right == Leaf && (q.red || |path| == 1)
  {
    Parts(q, dir, k);
    BlackHeight(Child(q, !dir), k - Shade(q.red));
  }

  function Revalue(path: seq<Frame>, i: nat, value: int): (r: seq<Frame>)
    requires i < |path|
  {
    path[i := path[i].(value := value)]
  }

  lemma RevalueEnd(path: seq<Frame>, i: nat, value: int)
    requires i < |path|
    ensures var n, r := |path| - 1, Revalue(path, i, value);
            if i == n then r[..n] == path[..n] && r[n] == path[n].(value := value)
            else r[..n] == Revalue(path[..n], i, value) && r[n] == path[n]
  {
  }

  lemma RevalueLength(path: seq<Frame>, i: nat, value: int)
    requires i < |path|
    ensures |Revalue(path, i, value)| == |path|
  {
  }

  lemma {:induction false} RevalueColours(path: seq<Frame>, i: nat, value: int, k: int, red: bool)
    requires i < |path|
    ensures PathBlack(Revalue(path, i, value), k) == PathBlack(path, k)
    ensures PathProper(Revalue(path, i, value), red) == PathProper(path, red)
    ensures PathRefs(Revalue(path, i, value)) == PathRefs(path)
  {
    hide Black, Proper, Refs, PathBlack, PathProper, PathRefs;
    var n, f, rest := |path| - 1, path[|path| - 1], path[..|path| - 1];
    var path' := Revalue(path, i, value);
    var rest', f' := path'[..n], path'[n];
    RevalueEnd(path, i, value);
    assert path == rest + [f] && path' == rest' + [f'];
    PathEnd(map[], rest, f, null);
    PathEnd(map[], rest', f', null);
    if n == 0 {
      AtTheTop(path, k, red);
      AtTheTop(path', k, red);
    } else {
      ColoursEnd(rest, f, k, red);
      ColoursEnd(rest', f', k, red);
    }
    if i < n {
      RevalueColours(rest, i, value, k + Shade(f.red), f.red);
    }
  }

  lemma {:induction false} RevalueHolds(h: Heap, path: seq<Frame>, x: RbNode?, i: nat, value: int)
    requires i < |path| && HoldsPath(h, path, x) && Unique(PathRefs(path))
    ensures var y := path[i].ref;
            y in h && y in PathRefs(path) && HoldsPath(h[y := h[y].(value := value)], Revalue(path, i, value), x)
  {
    hide Unique, Refs, Holds, HoldsPath, PathRefs, Revalue;
    var n, f, rest := |path| - 1, path[|path| - 1], path[..|path| - 1];
    var path' := Revalue(path, i, value);
    RevalueEnd(path, i, value);
    RevalueLength(path, i, value);
    assert path == rest + [f] && path' == path'[..n] + [path'[n]];
    PathEnd(h, rest, f, x);
    var y := path[i].ref;
    if i < n {
      UniqueSplit(multiset{f.ref} + Refs(f.sibling), PathRefs(rest));
      UniquePart(multiset{f.ref} + Refs(f.sibling), PathRefs(rest));
      RevalueHolds(h, rest, f.ref, i, value);
      var h' := h[y := h[y].(value := value)];
      HoldsElsewhere(h, h', f.sibling);
      PathEnd(h', path'[..n], f, x);
    } else {
      UniqueSplit(multiset{f.ref}, Refs(f.sibling) + PathRefs(rest));
      assert multiset{f.ref} + Refs(f.sibling) + PathRefs(rest) == multiset{f.ref} + (Refs(f.sibling) + PathRefs(rest));
      var h' := h[y := h[y].(value := value)];
      HoldsElsewhere(h, h', f.sibling);
      PathElsewhere(h, h', rest, f.ref);
      PathEnd(h', rest, path'[n], x);
    }
  }

  lemma UniquePart(a: multiset<RbNode>, b: multiset<RbNode>)
    requires Unique(a + b)
    ensures Unique(a) && Unique(b)
  {
    assert forall z :: z in a ==> z in a + b;
    assert forall z :: z in b ==> z in a + b;
  }

  lemma HeadsBelow(x: int, mid: seq<int>, r: seq<int>)
    requires Ascending([x] + mid + r)
    ensures r != [] ==> x < r[0]
  {
    var s := [x] + mid + r;
    assert r != [] ==> s[0] == x && s[1 + |mid|] == r[0];
  }

  /** The removed value is the first key behind the position, and its place is taken there. */
  lemma {:induction false} FoundRights(path: seq<Frame>, v: int, i: nat, value: int)
    requires 1 <= i < |path| && path[i].value == v && Way(path, v) && Ascending(Rights(path))
    ensures Rights(path) != [] && Rights(path)[0] == v
    ensures Rights(Revalue(path, i, value)) == [value] + Rights(path)[1..] &&
            Lefts(Revalue(path, i, value)) == Lefts(path)
  {
    hide Lefts, Rights, Revalue, Way, Ascending, Keys;
    var n, f, rest := |path| - 1, path[|path| - 1], path[..|path| - 1];
    var path' := Revalue(path, i, value);
    RevalueEnd(path, i, value);
    RevalueLength(path, i, value);
    var rest', f' := path'[..n], path'[n];
    assert path == rest + [f] && path' == rest' + [f'];
    WayAbove(rest, f, v);
    KeysEnd(rest, f);
    KeysEnd(rest', f');
    if i < n {
      if !f.dir {
        AscendingParts([f.value], Keys(f.sibling), Rights(rest));
        HeadsBelow(f.value, Keys(f.sibling), Rights(rest));
      }
      FoundRights(rest, v, i, value);
    }
  }

  lemma RevalueAt(h: Heap, path: seq<Frame>, q: Tree, i: nat, value: int)
    requires i < |path| && At(h, path, q)
    ensures var y := path[i].ref;
            && y in h && y in PathRefs(path) && (q.Node? ==> y != q.ref)
            && At(h[y := h[y].(value := value)], Revalue(path, i, value), q)
            && PathRefs(Revalue(path, i, value)) == PathRefs(path)
  {
    hide Refs, PathRefs, Unique, Holds, HoldsPath, Revalue;
    UniquePart(PathRefs(path), Refs(q));
    UniqueSplit(PathRefs(path), Refs(q));
    RevalueHolds(h, path, RefOf(q), i, value);
    RevalueColours(path, i, value, 0, false);
    var y := path[i].ref;
    HoldsElsewhere(h, h[y := h[y].(value := value)], q);
    RootIn(q);
  }

  lemma RevalueRoot(h: Heap, path: seq<Frame>, t: Tree, value: int)
    requires At(h, path, t) && t.Node?
    ensures t.ref in h && At(h[t.ref := h[t.ref].(value := value)], path, t.(value := value))
  {
    hide HoldsPath, PathRefs, Unique, Holds, Refs, At;
    AtMeans(h, path, t);
    HoldsNode(h, t);
    var h' := h[t.ref := h[t.ref].(value := value)];
    OwnRef(t);
    HoldsElsewhere(h, h', t.left);
    HoldsElsewhere(h, h', t.right);
    HoldsNode(h', t.(value := value));
    InPlace(h, h', path, t, t.(value := value));
  }

  lemma UnlinkAt(h: Heap, rest: seq<Frame>, f: Frame, t: Tree)
    requires At(h, rest + [f], t) && t.Node? && t.left == Leaf && t.right == Leaf
    ensures f.ref in h && At(h[f.ref := WithLink(h[f.ref], f.dir, null)], rest + [f], Leaf)
    ensures PathRefs(rest + [f]) + Refs(t) == PathRefs(rest + [f]) + Refs(Leaf) + multiset{t.ref} &&
            f.ref in PathRefs(rest + [f])
  {
    hide HoldsPath, PathRefs, Unique, Holds;
    PathEnd(h, rest, f, t.ref);
    OffPath(rest, f, t);
    UniquePart(PathRefs(rest + [f]), Refs(t));
    var h' := h[f.ref := WithLink(h[f.ref], f.dir, null)];
    PathElsewhere(h, h', rest, f.ref);
    HoldsElsewhere(h, h', f.sibling);
    PathEnd(h', rest, f, null);
    NoRefs();
    assert PathRefs(rest + [f]) + multiset{} == PathRefs(rest + [f]);
    LeafHolds(h');
  }

  lemma LeafHolds(h: Heap)
    ensures Holds(h, Leaf)
  {
  }

  /** The last node and the node with the value exchange their values. */
  method SwapValues(x: RbNode, q: RbNode, ghost U: set<RbNode>, ghost path: seq<Frame>, ghost Q: Tree, ghost i: nat)
    returns (ghost Q': Tree)
    requires path != [] && At(Snap(U), path, Q) && Q.Node? && q == Q.ref
    requires if x == q then i == 0 else 1 <= i < |path| && path[i].ref == x
    modifies U
    ensures Q'.Node? && Q'.ref == q && Q'.left == Q.left && Q'.right == Q.right
    ensures At(Snap(U), if x == q then path else Revalue(path, i, Q.value), Q')
    ensures OnlyIn(old(Snap(U)), Snap(U), PathRefs(path) + Refs(Q))
  {
    hide At, Holds, HoldsPath, Refs, PathRefs, Unique, Revalue, OnlyIn;
    ghost var h, all := Snap(U), PathRefs(path) + Refs(Q);
    AtMeans(h, path, Q);
    ChildColours(h, Q);
    RootIn(Q);
    NothingChanged(h, all);
    if x != q {
      RevalueAt(h, path, Q, i, Q.value);
    }
    var tmp := x.value;
    SetValue(x, q.value, U);
    ghost var h1 := Snap(U);
    OnlyOne(h, h, all, x, h1[x]);
    if x != q {
      RevalueRoot(h1, Revalue(path, i, Q.value), Q, tmp);
    }
    SetValue(q, tmp, U);
    OnlyOne(h, h1, all, q, Snap(U)[q]);
    if x != q {
      Q' := Q.(value := tmp);
    } else {
      assert Snap(U) == h;
      Q' := Q;
    }
  }

  method Unlink(x: RbNode, p: RbNode, q: RbNode, ghost U: set<RbNode>, ghost path: seq<Frame>, ghost Q: Tree,
                ghost i: nat)
    requires path != [] && At(Snap(U), path, Q) && Q.Node? && Q.left == Leaf && Q.right == Leaf && q == Q.ref
    requires p == path[|path| - 1].ref && if x == q then i == 0 else 1 <= i < |path| && path[i].ref == x
    modifies U
    ensures At(Snap(U), if x == q then path else Revalue(path, i, Q.value), Leaf)
    ensures OnlyIn(old(Snap(U)), Snap(U), PathRefs(path) + Refs(Q))
    ensures PathRefs(path) + Refs(Q) == PathRefs(path) + Refs(Leaf) + multiset{q}
  {
    hide At, Holds, HoldsPath, Refs, PathRefs, Unique, Revalue, OnlyIn;
    ghost var h, all := Snap(U), PathRefs(path) + Refs(Q);
    LeafRefs(Q);
    ghost var Q' := SwapValues(x, q, U, path, Q, i);
    ghost var h2, path' := Snap(U), if x == q then path else Revalue(path, i, Q.value);
    RevaluedEnd(path, i, Q.value, x == q);
    ghost var rest, f := path'[..|path'| - 1], path'[|path'| - 1];
    assert path' == rest + [f];
    Parent(h2, rest, f, Q');
    UnlinkAt(h2, rest, f, Q');
    AtMeans(h2, path', Q');
    ChildColours(h2, Q');
    SetLink(p, p.right == q, Link(q, q.left == null), U);
    OnlyOne(h, h2, all, p, Snap(U)[p]);
  }

  lemma LeafRefs(t: Tree)
    requires t.Node? && t.left == Leaf && t.right == Leaf
    ensures Refs(t) == multiset{t.ref} && Refs(Leaf) == multiset{}
  {
  }

  lemma RevaluedEnd(path: seq<Frame>, i: nat, value: int, same: bool)
    requires path != [] && i < |path|
    ensures var path' := if same then path else Revalue(path, i, value);
            |path'| == |path| && path'[|path| - 1].ref == path[|path| - 1].ref && PathRefs(path') == PathRefs(path)
  {
    hide PathRefs;
    RevalueColours(path, i, value, 0, false);
  }

  // ---------------------------------------------------------------------------
  // The keys afterwards
  // ---------------------------------------------------------------------------

  ghost predicate Removed(keys: seq<int>, keys': seq<int>, v: int) {
    Ascending(keys') && if v in keys then multiset(keys') == multiset(keys) - multiset{v} else keys' == keys
  }

  lemma AscendingWithout(a: seq<int>, x: int, b: seq<int>)
    requires Ascending(a + [x] + b)
    ensures Ascending(a + b) && multiset(a + b) == multiset(a + [x] + b) - multiset{x} && x in a + [x] + b
  {
    var s, t := a + [x] + b, a + b;
    assert forall i :: 0 <= i < |a| ==> t[i] == s[i];
    assert forall i :: |a| <= i < |t| ==> t[i] == s[i + 1];
    assert s[|a|] == x;
  }

  /** The last node goes with its own value. */
  lemma GoneItself(path: seq<Frame>, q: Tree)
    requires q.Node? && q.left == Leaf && q.right == Leaf && Ascending(KeysAt(path, q))
    ensures Removed(KeysAt(path, q), KeysAt(path, Leaf), q.value) && q.value in KeysAt(path, q)
  {
    var a, b := Lefts(path), Rights(path);
    assert Keys(q) == [q.value];
    assert KeysAt(path, Leaf) == a + b;
    AscendingWithout(a, q.value, b);
  }

  /** The last node goes and leaves its value to the node above that had the removed one. */
  lemma GoneAbove(path: seq<Frame>, q: Tree, v: int, i: nat)
    requires q.Node? && q.left == Leaf && q.right == Leaf && Ascending(KeysAt(path, q))
    requires 1 <= i < |path| && path[i].value == v && Way(path, v)
    ensures Removed(KeysAt(path, q), KeysAt(Revalue(path, i, q.value), Leaf), v) && v in KeysAt(path, q)
  {
    hide Lefts, Rights, Way, Ascending, Revalue;
    var a, b := Lefts(path), Rights(path);
    assert Keys(q) == [q.value];
    AscendingParts(a, [q.value], b);
    FoundRights(path, v, i, q.value);
    assert KeysAt(path, q) == a + [q.value] + [v] + b[1..];
    assert KeysAt(Revalue(path, i, q.value), Leaf) == a + [q.value] + b[1..];
    AscendingWithout(a + [q.value], v, b[1..]);
  }

  lemma NotThere(path: seq<Frame>, q: Tree, v: int)
    requires q.Node? && q.left == Leaf && q.right == Leaf && Ascending(KeysAt(path, q)) && Way(path, v) &&
             Found(path, q, v, null)
    ensures v !in KeysAt(path, q)
  {
    assert Route(path, v);
    hide Lefts, Rights;
    assert Keys(q) == [q.value];
    AscendingParts(Lefts(path), [q.value], Rights(path));
    RouteSplits(path, v);
  }

  lemma ShrunkColours(path: seq<Frame>, q: Tree, k: int, i: nat, value: int, same: bool)
    requires path != [] && RedBlack(path, q, k) && q.Node? && q.left == Leaf && q.right == Leaf &&
             (q.red || |path| == 1) && i < |path|
    ensures RedBlack(if same then path else Revalue(path, i, value), Leaf, 0)
  {
    hide PathBlack, PathProper, Black, Proper, Revalue;
    LoneHeight(q, k);
    RevalueColours(path, i, value, 0, false);
    MayBeBlack(path, IsRed(q));
    AtTheTop(path, 0, false);
  }

  lemma LoneHeight(q: Tree, k: int)
    requires q.Node? && q.left == Leaf && q.right == Leaf && Black(q, k)
    ensures k == Shade(q.red) && Black(Leaf, 0) && Proper(Leaf)
  {
  }

  // ---------------------------------------------------------------------------
  // The whole pass
  // ---------------------------------------------------------------------------

  ghost function Count(t: Tree): (n: nat) {
    if t.Leaf? then 0 else 1 + Count(t.left) + Count(t.right)
  }

  /** One step further down. */
  lemma Enter(h: Heap, path: seq<Frame>, q: Tree, k: int, dir: bool, v: int, keys: seq<int>, all: multiset<RbNode>,
              x: RbNode?, hf: Frame)
    requires InRemoval(h, path, q, k, dir, v, keys, all, x) && Child(q, dir).Node? && FirstIs(path, hf)
    ensures var path', c := path + [FrameOf(q, dir)], Child(q, dir);
            && Fits(h, path', c, k - Shade(q.red), keys, all) && Entering(path', c) && Way(path', v) &&
               FirstIs(path', hf)
            && Found(path', c, v, if c.value == v then c.ref else x)
            && path'[|path'| - 2].ref == path[|path| - 1].ref
  {
    hide Fits;
    FitsBelow(h, path, q, k, keys, all, dir);
    var path', c := path + [FrameOf(q, dir)], Child(q, dir);
    assert forall i :: 0 <= i < |path| ==> path'[i] == path[i];
    assert path'[|path|] == FrameOf(q, dir);
    if x != null && c.value != v && !(q.ref == x && q.value == v) {
      var i :| 1 <= i < |path| && path[i].ref == x && path[i].value == v;
      assert path'[i].ref == x;
    } else if x != null && c.value != v {
      assert path'[|path|].ref == x && |path| >= 1;
    }
  }

  method Pass(head: RbNode, root: RbNode, v: int, ghost U: set<RbNode>, ghost T: Tree, ghost k0: int)
    returns (ghost T': Tree, ghost n: int)
    requires head in U && root == RefOf(T)
    requires var f := HeadFrame(head, head.value);
             Fits(Snap(U), [f], T, k0, Keys(T), PathRefs([f]) + Refs(T)) && !IsRed(T) && Ascending(Keys(T))
    modifies U
    ensures head.value == old(head.value)
    ensures var f := HeadFrame(head, head.value);
            && Fits(Snap(U), [f], T', n, Keys(T'), PathRefs([f]) + Refs(T')) && Removed(Keys(T), Keys(T'), v)
            && PathRefs([f]) + Refs(T') <= PathRefs([f]) + Refs(T)
            && OnlyIn(old(Snap(U)), Snap(U), PathRefs([f]) + Refs(T))
  {
    hide InRemoval, Fits, OnlyIn, KeysAt, Keys, PathRefs, Refs, Ascending, Removed, IsRed, Count, Entering, Way, Found,
         Child;
    ghost var f, h0 := HeadFrame(head, head.value), Snap(U);
    ghost var keys, all := Keys(T), PathRefs([f]) + Refs(T);
    var q: RbNode, p: RbNode?, g: RbNode?, x: RbNode? := head, null, null, null;
    var dir := true;
    ghost var start, path, Q, k := true, [f], T, k0;
    NothingChanged(h0, all);
    RootBelow(h0, f, T, k0, keys, all);
    while Link(q, dir) != null
      invariant OnlyIn(h0, Snap(U), all) && head.value == f.value
      invariant start ==> Snap(U) == h0 && q == head && p == null && dir && x == null && Link(q, dir) == root
      invariant !start ==>
        && InRemoval(Snap(U), path, Q, k, dir, v, keys, all, x) && FirstIs(path, f)
        && Q.Node? && q == Q.ref && p == path[|path| - 1].ref && Link(q, dir) == RefOf(Child(Q, dir))
      decreases if start then 1 + Count(T) else Count(Child(Q, dir))
    {
      ghost var h, path1, c, k1 := Snap(U), [f], T, k0;
      ghost var x1: RbNode?;
      if start {
        EnterRoot(h, f, T, k0, keys, all, v);
      } else {
        Enter(h, path, Q, k, dir, v, keys, all, x, f);
        path1, c, k1 := path + [FrameOf(Q, dir)], Child(Q, dir), k - Shade(Q.red);
      }
      ValueAt(h, path1, c, k1, keys, all);
      var last := dir;
      g, p := p, q;
      q := Link(q, dir);
      dir := q.value < v;
      if q.value == v {
        x := q;
      }
      Counts(c, dir);
      p, path, Q, k := Push(g, p, q, last, dir, U, path1, c, k1, v, keys, all, x, f);
      OnlyTwice(h0, h, Snap(U), all);
      start := false;
      Where(Snap(U), path, Q, k, dir, v, keys, all, x, f);
    }
    ghost var h := Snap(U);
    T', n := Finish(x, p, q, U, path, Q, k, dir, v, keys, all, f);
    OnlyTwice(h0, h, Snap(U), all);
    RootBelow(Snap(U), f, T', n, Keys(T'), PathRefs([f]) + Refs(T'));
  }

  /** Unlinking the last node, if the value was met. */
  method Finish(x: RbNode?, p: RbNode, q: RbNode, ghost U: set<RbNode>, ghost path: seq<Frame>, ghost Q: Tree,
                ghost k: int,
                ghost dir: bool, ghost v: int, ghost keys: seq<int>, ghost all: multiset<RbNode>, ghost f: Frame)
    returns (ghost T': Tree, ghost n: int)
    requires InRemoval(Snap(U), path, Q, k, dir, v, keys, all, x) && FirstIs(path, f) && Ascending(keys)
    requires Q.Node? && q == Q.ref && p == path[|path| - 1].ref && Child(Q, dir) == Leaf
    modifies U
    ensures Fits(Snap(U), [f], T', n, Keys(T'), PathRefs([f]) + Refs(T')) && Removed(keys, Keys(T'), v)
    ensures PathRefs([f]) + Refs(T') <= all && OnlyIn(old(Snap(U)), Snap(U), all)
  {
    hide At, RedBlack, KeysAt, Keys, Ascending, PathRefs, Refs, Way, Found, Revalue, Lucky, Removed, OnlyIn, Fits;
    ghost var h := Snap(U);
    FitsAll(h, path, Q, k, keys, all);
    LastNode(path, Q, k, dir);
    if x != null {
      ghost var i := Which(h, path, Q, v, x);
      Unlink(x, p, q, U, path, Q, i);
      ghost var path' := if x == q then path else Revalue(path, i, Q.value);
      ShrunkColours(path, Q, k, i, Q.value, x == q);
      RevaluedEnd(path, i, Q.value, x == q);
      RevaluedFirst(path, i, Q.value, x == q);
      if x == q {
        GoneItself(path, Q);
      } else {
        GoneAbove(path, Q, v, i);
      }
      T', n := Top(Snap(U), path', Leaf, 0, f);
    } else {
      NotThere(path, Q, v);
      NothingRemoved(keys, v);
      NothingChanged(h, all);
      T', n := Top(h, path, Q, k, f);
    }
  }

  lemma FitsAll(h: Heap, path: seq<Frame>, q: Tree, k: int, keys: seq<int>, all: multiset<RbNode>)
    requires Fits(h, path, q, k, keys, all)
    ensures path != [] && At(h, path, q) && RedBlack(path, q, k) && KeysAt(path, q) == keys &&
            PathRefs(path) + Refs(q) == all
  {
  }

  lemma NothingRemoved(keys: seq<int>, v: int)
    requires Ascending(keys) && v !in keys
    ensures Removed(keys, keys, v)
  {
  }

  lemma RevaluedFirst(path: seq<Frame>, i: nat, value: int, same: bool)
    requires i < |path| && (i == 0 ==> same)
    ensures (if same then path else Revalue(path, i, value))[0] == path[0]
  {
  }

  /** Where the removed value is. */
  lemma Which(h: Heap, path: seq<Frame>, q: Tree, v: int, x: RbNode) returns (i: nat)
    requires path != [] && At(h, path, q) && q.Node? && Found(path, q, v, x)
    ensures if x == q.ref then i == 0 && q.value == v else 1 <= i < |path| && path[i].ref == x && path[i].value == v
  {
    hide Holds, HoldsPath, Refs, PathRefs, Unique;
    if x == q.ref && q.value == v {
      i := 0;
    } else {
      i :| 1 <= i < |path| && path[i].ref == x && path[i].value == v;
      RevalueAt(h, path, q, i, v);
    }
  }

  lemma Top(h: Heap, path: seq<Frame>, q: Tree, k: int, f: Frame) returns (t: Tree, n: int)
    requires FirstIs(path, f) && At(h, path, q) && RedBlack(path, q, k)
    ensures Fits(h, [f], t, n, Keys(t), PathRefs([f]) + Refs(t)) && Keys(t) == KeysAt(path, q)
    ensures PathRefs([f]) + Refs(t) == PathRefs(path) + Refs(q)
  {
    hide At, RedBlack, PathRefs, Refs;
    t, n := Climb(h, path, q, k);
    assert KeysAt([f], t) == Keys(t);
  }

  lemma RootBelow(h: Heap, f: Frame, t: Tree, k: int, keys: seq<int>, all: multiset<RbNode>)
    requires Fits(h, [f], t, k, keys, all)
    ensures f.ref in h && LinkOf(h[f.ref], f.dir) == RefOf(t) && h[f.ref].value == f.value
  {
    assert [] + [f] == [f];
    PathEnd(h, [], f, RefOf(t));
  }

  lemma EnterRoot(h: Heap, f: Frame, t: Tree, k: int, keys: seq<int>, all: multiset<RbNode>, v: int)
    requires t.Node?
    ensures Entering([f], t) && Way([f], v) && FirstIs([f], f) && Found([f], t, v, if t.value == v then t.ref else null)
  {
  }

  lemma Counts(c: Tree, d: bool)
    requires c.Node?
    ensures Count(Child(c, d)) < Count(c)
  {
  }

  lemma Where(h: Heap, path: seq<Frame>, q: Tree, k: int, dir: bool, v: int, keys: seq<int>, all: multiset<RbNode>,
              x: RbNode?, f: Frame)
    requires InRemoval(h, path, q, k, dir, v, keys, all, x) && FirstIs(path, f)
    ensures q.Node? && q.ref in h && LinkOf(h[q.ref], dir) == RefOf(Child(q, dir)) && f.ref in h &&
            h[f.ref].value == f.value
    ensures Fits(h, path, q, k, keys, all)
  {
    hide Fits;
    ValueAt(h, path, q, k, keys, all);
    HeadValue(h, path, q, k, keys, all, f);
  }
}
